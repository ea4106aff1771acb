/** Which `is` tests a Boolean expression proves matched (`matched_is_tests`). */
module Narrowing {

  /** Tests and opaque sub-expressions are numbered. */
  datatype Expr =
    | Is(test: nat)
    | Opaque(atom: nat)
    | Paren(inner: Expr)
    | Not(inner: Expr)
    | And(left: Expr, right: Expr)
    | Or(left: Expr, right: Expr)
    | Implies(left: Expr, right: Expr)

  /** The tests `e` proves matched when it evaluates to `whenTrue`, in source order. */
  function Matched(e: Expr, whenTrue: bool): seq<nat> {
    match e
    case Is(t) => if whenTrue then [t] else []
    case Opaque(_) => []
    case Paren(x) => Matched(x, whenTrue)
    case Not(x) => Matched(x, !whenTrue)
    case And(a, b) => if whenTrue then Matched(a, whenTrue) + Matched(b, whenTrue) else []
    case Or(a, b) => if whenTrue then [] else Matched(a, whenTrue) + Matched(b, whenTrue)
    case Implies(a, b) => if whenTrue then [] else Matched(a, true) + Matched(b, false)
  }

  /** The shared output the recursion pushes into. */
  class Collector {
    var out: seq<nat>

    constructor ()
      ensures out == []
    {
      out := [];
    }

    method Collect(e: Expr, whenTrue: bool)
      modifies this
      ensures out == old(out) + Matched(e, whenTrue)
      decreases e
    {
      match e {
        case Is(t) => if whenTrue { out := out + [t]; }
        case Opaque(_) =>
        case Paren(x) => Collect(x, whenTrue);
        case Not(x) => Collect(x, !whenTrue);
        case And(a, b) => if whenTrue { Collect(a, whenTrue); Collect(b, whenTrue); }
        case Or(a, b) => if !whenTrue { Collect(a, whenTrue); Collect(b, whenTrue); }
        case Implies(a, b) => if !whenTrue { Collect(a, true); Collect(b, false); }
      }
    }
  }

  method MatchedIsTests(e: Expr, whenTrue: bool) returns (tests: seq<nat>)
    ensures tests == Matched(e, whenTrue)
  {
    var collector := new Collector();
    collector.Collect(e, whenTrue);
    tests := collector.out;
  }

  // ----- evaluation -----

  /** Which tests match and which opaque expressions hold. */
  datatype World = World(matching: set<nat>, holding: set<nat>)

  /** The value of an expression, and the tests evaluated on the way under short-circuit rules. */
  datatype Outcome = Outcome(value: bool, evaluated: set<nat>)

  function Then(first: Outcome, second: Outcome): Outcome {
    Outcome(second.value, first.evaluated + second.evaluated)
  }

  function Eval(e: Expr, w: World): Outcome {
    match e
    case Is(t) => Outcome(t in w.matching, {t})
    case Opaque(a) => Outcome(a in w.holding, {})
    case Paren(x) => Eval(x, w)
    case Not(x) => Outcome(!Eval(x, w).value, Eval(x, w).evaluated)
    case And(a, b) => if Eval(a, w).value then Then(Eval(a, w), Eval(b, w)) else Eval(a, w)
    case Or(a, b) => if Eval(a, w).value then Eval(a, w) else Then(Eval(a, w), Eval(b, w))
    case Implies(a, b) =>
      if Eval(a, w).value then Then(Eval(a, w), Eval(b, w)) else Outcome(true, Eval(a, w).evaluated)
  }

  /** Every test returned was evaluated and matched, so its bindings exist wherever they come into scope. */
  lemma {:induction false} MatchedSound(e: Expr, w: World)
    ensures forall t | t in Matched(e, Eval(e, w).value) :: t in Eval(e, w).evaluated && t in w.matching
  {
    match e
    case Paren(x) => MatchedSound(x, w);
    case Not(x) => MatchedSound(x, w);
    case And(a, b) => MatchedSound(a, w); MatchedSound(b, w);
    case Or(a, b) => MatchedSound(a, w); MatchedSound(b, w);
    case Implies(a, b) => MatchedSound(a, w); MatchedSound(b, w);
    case _ =>
  }

  // ----- nothing more could be returned -----

  function Tests(e: Expr): set<nat> {
    match e
    case Is(t) => {t}
    case Opaque(_) => {}
    case Paren(x) => Tests(x)
    case Not(x) => Tests(x)
    case And(a, b) => Tests(a) + Tests(b)
    case Or(a, b) => Tests(a) + Tests(b)
    case Implies(a, b) => Tests(a) + Tests(b)
  }

  function Atoms(e: Expr): set<nat> {
    match e
    case Is(_) => {}
    case Opaque(a) => {a}
    case Paren(x) => Atoms(x)
    case Not(x) => Atoms(x)
    case And(a, b) => Atoms(a) + Atoms(b)
    case Or(a, b) => Atoms(a) + Atoms(b)
    case Implies(a, b) => Atoms(a) + Atoms(b)
  }

  predicate Apart(a: Expr, b: Expr) {
    Tests(a) !! Tests(b) && Atoms(a) !! Atoms(b)
  }

  /** No test and no opaque expression occurs twice. */
  predicate ReadOnce(e: Expr) {
    match e
    case Paren(x) => ReadOnce(x)
    case Not(x) => ReadOnce(x)
    case And(a, b) => ReadOnce(a) && ReadOnce(b) && Apart(a, b)
    case Or(a, b) => ReadOnce(a) && ReadOnce(b) && Apart(a, b)
    case Implies(a, b) => ReadOnce(a) && ReadOnce(b) && Apart(a, b)
    case _ => true
  }

  lemma {:induction false} EvalLocal(e: Expr, w: World, w': World)
    requires w.matching * Tests(e) == w'.matching * Tests(e) && w.holding * Atoms(e) == w'.holding * Atoms(e)
    ensures Eval(e, w) == Eval(e, w')
    decreases e, 1
  {
    match e
    case Is(t) => assert t in w.matching <==> t in w.matching * Tests(e);
                  assert t in w'.matching <==> t in w'.matching * Tests(e);
    case Opaque(a) => assert a in w.holding <==> a in w.holding * Atoms(e);
                      assert a in w'.holding <==> a in w'.holding * Atoms(e);
    case Paren(x) => EvalLocal(x, w, w');
    case Not(x) => EvalLocal(x, w, w');
    case And(a, b) => EvalLocalBoth(e, a, b, w, w');
    case Or(a, b) => EvalLocalBoth(e, a, b, w, w');
    case Implies(a, b) => EvalLocalBoth(e, a, b, w, w');
  }

  lemma {:induction false} EvalLocalBoth(e: Expr, a: Expr, b: Expr, w: World, w': World)
    requires a < e && b < e
    requires w.matching * (Tests(a) + Tests(b)) == w'.matching * (Tests(a) + Tests(b))
    requires w.holding * (Atoms(a) + Atoms(b)) == w'.holding * (Atoms(a) + Atoms(b))
    ensures Eval(a, w) == Eval(a, w') && Eval(b, w) == Eval(b, w')
    decreases e, 0
  {
    var tests, atoms := Tests(a) + Tests(b), Atoms(a) + Atoms(b);
    assert forall s: set<nat> :: s * Tests(a) == (s * tests) * Tests(a) && s * Tests(b) == (s * tests) * Tests(b);
    assert forall s: set<nat> :: s * Atoms(a) == (s * atoms) * Atoms(a) && s * Atoms(b) == (s * atoms) * Atoms(b);
    EvalLocal(a, w, w');
    EvalLocal(b, w, w');
  }

  /** One world for two expressions that share nothing. */
  function Join(a: Expr, wa: World, wb: World): World {
    World((wa.matching * Tests(a)) + (wb.matching - Tests(a)), (wa.holding * Atoms(a)) + (wb.holding - Atoms(a)))
  }

  lemma JoinEval(a: Expr, b: Expr, wa: World, wb: World)
    requires Apart(a, b)
    ensures Eval(a, Join(a, wa, wb)) == Eval(a, wa) && Eval(b, Join(a, wa, wb)) == Eval(b, wb)
  {
    EvalLocal(a, Join(a, wa, wb), wa);
    EvalLocal(b, Join(a, wa, wb), wb);
  }

  const EMPTY := World({}, {})

  /** An expression that reads everything once can take both values. */
  lemma {:induction false} Reach(e: Expr, want: bool) returns (w: World)
    requires ReadOnce(e)
    ensures Eval(e, w).value == want
  {
    match e {
      case Is(t) => w := if want then World({t}, {}) else EMPTY;
      case Opaque(a) => w := if want then World({}, {a}) else EMPTY;
      case Paren(x) => w := Reach(x, want);
      case Not(x) => w := Reach(x, !want);
      case And(a, b) =>
        var wa := Reach(a, want);
        var wb := Reach(b, want);
        JoinEval(a, b, wa, wb);
        w := Join(a, wa, wb);
      case Or(a, b) =>
        var wa := Reach(a, want);
        var wb := Reach(b, want);
        JoinEval(a, b, wa, wb);
        w := Join(a, wa, wb);
      case Implies(a, b) =>
        var wa := Reach(a, !want);
        var wb := Reach(b, want);
        JoinEval(a, b, wa, wb);
        w := Join(a, wa, wb);
    }
  }

  /** Giving one operand its value while no test of the other one matches. */
  lemma ReachLeft(a: Expr, b: Expr, want: bool) returns (w: World)
    requires ReadOnce(a) && Apart(a, b)
    ensures Eval(a, w).value == want && w.matching !! Tests(b)
  {
    var wa := Reach(a, want);
    JoinEval(a, b, wa, EMPTY);
    w := Join(a, wa, EMPTY);
  }

  lemma ReachRight(a: Expr, b: Expr, want: bool) returns (w: World)
    requires ReadOnce(b) && Apart(a, b)
    ensures Eval(b, w).value == want && w.matching !! Tests(a)
  {
    var wb := Reach(b, want);
    JoinEval(a, b, EMPTY, wb);
    w := Join(a, EMPTY, wb);
  }

  /** A test that both operands must together leave unmatched, while they take the values given. */
  lemma {:induction false} AvoidBoth(e: Expr, a: Expr, b: Expr, va: bool, vb: bool, t: nat) returns (w: World)
    requires a < e && b < e && ReadOnce(a) && ReadOnce(b) && Apart(a, b)
    requires t in Tests(a) + Tests(b) && t !in Matched(a, va) && t !in Matched(b, vb)
    ensures Eval(a, w).value == va && Eval(b, w).value == vb && t !in w.matching
    decreases e, 0
  {
    var wa, wb;
    if t in Tests(a) {
      wa := Avoid(a, va, t);
      wb := Reach(b, vb);
    } else {
      wa := Reach(a, va);
      wb := Avoid(b, vb, t);
    }
    JoinEval(a, b, wa, wb);
    w := Join(a, wa, wb);
    if t in Tests(a) { assert t !in wb.matching - Tests(a); }
  }

  /** A test that is not returned fails to match in some evaluation that gives the expression its value. */
  lemma {:induction false} Avoid(e: Expr, whenTrue: bool, t: nat) returns (w: World)
    requires ReadOnce(e) && t in Tests(e) && t !in Matched(e, whenTrue)
    ensures Eval(e, w).value == whenTrue && t !in w.matching
    decreases e, 1
  {
    match e {
      case Is(_) => w := EMPTY;
      case Paren(x) => w := Avoid(x, whenTrue, t);
      case Not(x) => w := Avoid(x, !whenTrue, t);
      case And(a, b) =>
        if whenTrue { w := AvoidBoth(e, a, b, true, true, t); }
        else if t in Tests(a) { w := ReachRight(a, b, false); }
        else { w := ReachLeft(a, b, false); }
      case Or(a, b) =>
        if !whenTrue { w := AvoidBoth(e, a, b, false, false, t); }
        else if t in Tests(a) { w := ReachRight(a, b, true); }
        else { w := ReachLeft(a, b, true); }
      case Implies(a, b) =>
        if !whenTrue { w := AvoidBoth(e, a, b, true, false, t); }
        else if t in Tests(a) { w := ReachRight(a, b, true); }
        else { w := ReachLeft(a, b, false); }
    }
  }

  /** For expressions that read everything once the tests returned are exactly those that match in every
      evaluation giving the expression its value. */
  lemma MatchedExact(e: Expr, whenTrue: bool, t: nat)
    requires ReadOnce(e) && t in Tests(e)
    ensures t in Matched(e, whenTrue) <==> forall w | Eval(e, w).value == whenTrue :: t in w.matching
  {
    if t in Matched(e, whenTrue) {
      forall w | Eval(e, w).value == whenTrue ensures t in w.matching { MatchedSound(e, w); }
    } else {
      var w := Avoid(e, whenTrue, t);
    }
  }

  // ----- source order -----

  /** The tests as they are written, from left to right. */
  function Written(e: Expr): seq<nat> {
    match e
    case Is(t) => [t]
    case Opaque(_) => []
    case Paren(x) => Written(x)
    case Not(x) => Written(x)
    case And(a, b) => Written(a) + Written(b)
    case Or(a, b) => Written(a) + Written(b)
    case Implies(a, b) => Written(a) + Written(b)
  }

  /** `xs` is `ys` without some of its elements. */
  predicate Subsequence(xs: seq<nat>, ys: seq<nat>) {
    xs == [] || (ys != [] && (Subsequence(xs, ys[1..]) || (xs[0] == ys[0] && Subsequence(xs[1..], ys[1..]))))
  }

  lemma {:induction false} SubsequenceAppend(xs: seq<nat>, ys: seq<nat>, xs': seq<nat>, ys': seq<nat>)
    requires Subsequence(xs, ys) && Subsequence(xs', ys')
    ensures Subsequence(xs + xs', ys + ys')
    decreases ys
  {
    if ys == [] {
      assert xs + xs' == xs' && ys + ys' == ys';
    } else {
      assert (ys + ys')[1..] == ys[1..] + ys';
      if Subsequence(xs, ys[1..]) {
        SubsequenceAppend(xs, ys[1..], xs', ys');
      } else {
        SubsequenceAppend(xs[1..], ys[1..], xs', ys');
        assert (xs + xs')[1..] == xs[1..] + xs';
      }
    }
  }

  /** The tests returned are in source order, each as often as it is written at most. */
  lemma {:induction false} MatchedInOrder(e: Expr, whenTrue: bool)
    ensures Subsequence(Matched(e, whenTrue), Written(e))
    decreases e, 1
  {
    match e
    case Paren(x) => MatchedInOrder(x, whenTrue);
    case Not(x) => MatchedInOrder(x, !whenTrue);
    case And(a, b) => BothInOrder(e, a, b, whenTrue, whenTrue);
    case Or(a, b) => BothInOrder(e, a, b, whenTrue, whenTrue);
    case Implies(a, b) => BothInOrder(e, a, b, true, false);
    case _ =>
  }

  lemma {:induction false} BothInOrder(e: Expr, a: Expr, b: Expr, va: bool, vb: bool)
    requires a < e && b < e
    ensures Subsequence(Matched(a, va) + Matched(b, vb), Written(a) + Written(b))
    decreases e, 0
  {
    MatchedInOrder(a, va);
    MatchedInOrder(b, vb);
    SubsequenceAppend(Matched(a, va), Written(a), Matched(b, vb), Written(b));
  }
}
