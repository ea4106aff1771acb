/** The order of texts, which sorted maps, sets and lists are in. */
module TextOrder {

  predicate Leq(s: string, t: string) {
    s == "" || (t != "" && (s[0] < t[0] || (s[0] == t[0] && Leq(s[1..], t[1..]))))
  }

  lemma {:induction false} LeqAntisymmetric(s: string, t: string)
    requires Leq(s, t) && Leq(t, s)
    ensures s == t
  {
    if s != "" {
      LeqAntisymmetric(s[1..], t[1..]);
      assert s == [s[0]] + s[1..] && t == [t[0]] + t[1..];
    }
  }

  lemma {:induction false} LeqTransitive(s: string, t: string, u: string)
    requires Leq(s, t) && Leq(t, u)
    ensures Leq(s, u)
  {
    if s != "" && s[0] == t[0] == u[0] { LeqTransitive(s[1..], t[1..], u[1..]); }
  }

  lemma {:induction false} LeqTotal(s: string, t: string)
    ensures Leq(s, t) || Leq(t, s)
  {
    if s != "" && t != "" { LeqTotal(s[1..], t[1..]); }
  }

  /** A set that is not empty has a first text. */
  lemma {:induction false} LeastExists(ts: set<string>) returns (t: string)
    requires ts != {}
    ensures t in ts && forall s | s in ts :: Leq(t, s)
  {
    t :| t in ts;
    LeqTotal(t, t);
    if ts != {t} {
      var u := LeastExists(ts - {t});
      LeqTotal(t, u);
      if Leq(t, u) {
        forall s | s in ts ensures Leq(t, s) { if s != t { LeqTransitive(t, u, s); } }
      } else {
        t := u;
      }
    }
  }
}
