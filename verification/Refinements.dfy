/** The canonical form of a refinement (`canon_refinement`, `canon_predicate`), shared by the contract form
    and by the boundary comparison. */
module Refinements {
  import opened Types

  /** `NonEmpty` is written for `MinLength(1)`. */
  function CanonicalPred(p: Pred): Pred {
    if p == NonEmpty then MinLength(1) else p
  }

  /** Sorting and removing repeats leaves exactly the set of canonical predicates. No refinement at all is
      told apart from one without predicates. */
  function CanonicalRefinement(r: Refinement): Option<set<Pred>> {
    match r
    case None => None
    case Some(ps) => Some(set p | p in ps :: CanonicalPred(p))
  }

  /** A refined sender may meet an unrefined receiver, not the other way round. */
  predicate RefinementsMatch(a: Refinement, b: Refinement) {
    b.None? || CanonicalRefinement(a) == CanonicalRefinement(b)
  }

  /** The list has the predicate, or the other spelling of it. */
  predicate AsksFor(ps: seq<Pred>, q: Pred) {
    q in ps || (q == NonEmpty && MinLength(1) in ps) || (q == MinLength(1) && NonEmpty in ps)
  }

  /** Canonical forms are equal exactly when both sides have a refinement or neither has, and both ask for the same:
      neither order nor repeats nor the spelling of `MinLength(1)` tell. */
  lemma CanonicalMeans(r: Refinement, s: Refinement)
    ensures CanonicalRefinement(r) == CanonicalRefinement(s) <==>
            (r.Some? <==> s.Some?) && (r.Some? ==> forall q :: AsksFor(r.value, q) <==> AsksFor(s.value, q))
  {
    if r.Some? && s.Some? {
      Asked(r.value);
      Asked(s.value);
      var x, y := CanonicalRefinement(r).value, CanonicalRefinement(s).value;
      if x != y {
        var c :| (c in x) != (c in y);
        assert CanonicalPred(c) == c;
      }
    }
  }

  lemma Asked(ps: seq<Pred>)
    ensures forall q :: AsksFor(ps, q) <==> CanonicalPred(q) in CanonicalRefinement(Some(ps)).value
  {
    forall q ensures AsksFor(ps, q) <==> CanonicalPred(q) in CanonicalRefinement(Some(ps)).value {
      if CanonicalPred(q) in CanonicalRefinement(Some(ps)).value {
        var p :| p in ps && CanonicalPred(p) == CanonicalPred(q);
      }
    }
  }
}
