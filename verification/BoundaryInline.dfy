/** Inline refinements of record fields are not compared. When values cross a boundary all the same. */
module BoundaryInline {
  import opened Types
  import opened Resolution
  import opened Refinements
  import opened Boundary
  import opened BoundaryUniform
  import opened BoundaryCoherence
  import opened BoundaryValues

  /** An inline refinement stands on a field of a base type or of a refined type. */
  predicate OnBase(ref: TypeRef, params: seq<string>, table: Table) {
    ref.BaseRef? || (ref.NamedRef? && ref.name !in params && ref.name in table && table[ref.name].body.Refined?)
  }

  ghost predicate InlineOnBase(table: Table) {
    forall n, name | n in table && table[n].body.Record? ::
      var f := FindField(table[n].body.fields, name);
      f.Some? && f.value.refinement.Some? ==> OnBase(f.value.typ, table[n].typeParams, table)
  }

  // ----- a value not yet used -----

  /** Every base value inside is written with fewer than `n` characters. */
  predicate Short(v: Value, n: nat) {
    match v
    case Prim(_, c) => |c| < n
    case Minted(_, _, c) => |c| < n
    case Token(_, _) => true
    case Wrapped(_, _, items) => forall i | 0 <= i < |items| :: Short(items[i], n)
    case Outcome(_, inner) => Short(inner, n)
    case Entries(ks, ws) => (forall i | 0 <= i < |ks| :: Short(ks[i], n)) && forall i | 0 <= i < |ws| :: Short(ws[i], n)
    case Object(_, ms) => forall i | 0 <= i < |ms| :: Short(ms[i], n)
    case Tagged(_, _, ms) => forall i | 0 <= i < |ms| :: Short(ms[i], n)
  }

  function Max(m: nat, n: nat): nat {
    if m < n then n else m
  }

  function Longest(v: Value): nat {
    match v
    case Prim(_, c) => |c|
    case Minted(_, _, c) => |c|
    case Token(_, _) => 0
    case Wrapped(_, _, items) => LongestOf(items)
    case Outcome(_, inner) => Longest(inner)
    case Entries(ks, ws) => Max(LongestOf(ks), LongestOf(ws))
    case Object(_, ms) => LongestOf(ms)
    case Tagged(_, _, ms) => LongestOf(ms)
  }

  function LongestOf(vs: seq<Value>): (n: nat)
    ensures forall i | 0 <= i < |vs| :: Longest(vs[i]) <= n
  {
    if vs == [] then 0 else Max(Longest(vs[0]), LongestOf(vs[1..]))
  }

  lemma {:induction false} LongestShort(v: Value, n: nat)
    requires Longest(v) < n
    ensures Short(v, n)
  {
    match v
    case Wrapped(_, _, items) => forall i | 0 <= i < |items| ensures Short(items[i], n) { LongestShort(items[i], n); }
    case Outcome(_, inner) => LongestShort(inner, n);
    case Entries(ks, ws) =>
      forall i | 0 <= i < |ks| ensures Short(ks[i], n) { LongestShort(ks[i], n); }
      forall i | 0 <= i < |ws| ensures Short(ws[i], n) { LongestShort(ws[i], n); }
    case Object(_, ms) => forall i | 0 <= i < |ms| ensures Short(ms[i], n) { LongestShort(ms[i], n); }
    case Tagged(_, _, ms) => forall i | 0 <= i < |ms| ensures Short(ms[i], n) { LongestShort(ms[i], n); }
    case _ =>
  }

  /** Everything holds of everything, but for one predicate of one value. */
  ghost function AllBut(c: Pred, w: Value): Meaning {
    iset q: (Pred, Value) | CanonicalPred(q.0) != c || q.1 != w
  }

  lemma AllButSugar(c: Pred, w: Value)
    ensures SugarAgrees(AllBut(c, w))
  {
    assert CanonicalPred(NonEmpty) == CanonicalPred(MinLength(1));
  }

  /** A value that does not contain `w` keeps its type. */
  lemma {:induction false} KeepsType(v: Value, t: Ty, table: Table, c: Pred, w: Value)
    requires w.Prim? && Short(v, |w.content|) && HasType(v, t, table, ALL, true)
    ensures HasType(v, t, table, AllBut(c, w), true)
    decreases v, 1
  {
    hide AllBut;
    match t
    case Wrap(_, a) =>
      forall i | 0 <= i < |v.items| ensures HasType(v.items[i], a, table, AllBut(c, w), true) {
        KeepsType(v.items[i], a, table, c, w);
      }
    case Pair(ResultOf, a, b) => KeepsType(v.inner, if v.ok then a else b, table, c, w);
    case Pair(MapOf, k, x) =>
      forall i | 0 <= i < |v.keys| ensures HasType(v.keys[i], k, table, AllBut(c, w), true) {
        KeepsType(v.keys[i], k, table, c, w);
      }
      forall i | 0 <= i < |v.values| ensures HasType(v.values[i], x, table, AllBut(c, w), true) {
        KeepsType(v.values[i], x, table, c, w);
      }
    case Named(n, _, args) => KeepsBody(v, Side(table[n], args, table), c, w);
    case _ =>
  }

  lemma {:induction false} KeepsBody(v: Value, s: Side, c: Pred, w: Value)
    requires w.Prim? && Short(v, |w.content|) && HasBody(v, s, ALL, true)
    ensures HasBody(v, s, AllBut(c, w), true)
    decreases v, 0
  {
    match s.decl.body
    case Record(fs) =>
      forall i | 0 <= i < |v.members|
        ensures Satisfies(v.members[i], FindField(fs, v.names[i]).value.refinement, AllBut(c, w))
        ensures HasType(v.members[i], InstantiateField(s.decl, s.args, FindField(fs, v.names[i]).value.typ, s.table).value,
                        s.table, AllBut(c, w), true)
      {
        KeepsType(v.members[i], InstantiateField(s.decl, s.args, FindField(fs, v.names[i]).value.typ, s.table).value,
                  s.table, c, w);
        assert v.members[i] != w;
      }
    case Sum(vs) =>
      var x := FindVariant(vs, v.tag).value;
      assert |PayloadNames(x.payload)| == |x.payload|;
      forall i | 0 <= i < |v.members|
        ensures HasType(v.members[i], InstantiateField(s.decl, s.args, x.payload[i].typ, s.table).value, s.table, AllBut(c, w), true)
      {
        KeepsType(v.members[i], InstantiateField(s.decl, s.args, x.payload[i].typ, s.table).value, s.table, c, w);
      }
    case _ =>
  }

  // ----- every field of a record value is there -----

  lemma {:induction false} SubsetSize<T>(small: set<T>, large: set<T>)
    requires small <= large
    ensures |small| <= |large| && (|small| == |large| ==> small == large)
  {
    if small != {} {
      var k :| k in small;
      SubsetSize(small - {k}, large - {k});
      assert small == (small - {k}) + {k} && large == (large - {k}) + {k};
    }
  }

  lemma {:induction false} DistinctSize(names: seq<string>)
    requires Distinct(names)
    ensures |set n | n in names| == |names|
  {
    if names != [] {
      DistinctSize(names[1..]);
      assert names[0] !in names[1..];
      assert (set n | n in names) == {names[0]} + set n | n in names[1..];
    }
  }

  lemma {:induction false} NamesSize(names: seq<string>)
    ensures |set n | n in names| <= |names|
  {
    if names != [] {
      NamesSize(names[1..]);
      assert (set n | n in names) == {names[0]} + set n | n in names[1..];
    }
  }

  lemma FieldPresent(names: seq<string>, fs: seq<Field>, name: string)
    requires Distinct(names) && |names| == |fs| && forall i | 0 <= i < |names| :: FindField(fs, names[i]).Some?
    requires FindField(fs, name).Some?
    ensures name in names
  {
    var present, declared := set n | n in names, set n | n in FieldNames(fs);
    DistinctSize(names);
    NamesSize(FieldNames(fs));
    forall n | FindField(fs, n).Some? ensures n in declared {
      var i :| 0 <= i < |fs| && fs[i] == FindField(fs, n).value;
      assert FieldNames(fs)[i] == n;
    }
    SubsetSize(present, declared);
    assert name in present;
  }

  // ----- what a covered field is needed for -----

  /** A receiver's refined field faces a base type or a refined type on the sender's side. */
  lemma FacesBase(x: Side, f: Field, y: Side, g: Field, r: Relation, w: Value)
    requires WellKeyed(x.table) && WellKeyed(y.table) && PlainSimulation(r, x.table, y.table)
    requires MembersWalk(x, f.typ, y, g.typ, r) && OnBase(g.typ, y.decl.typeParams, y.table)
    requires forall i | 0 <= i < |x.args| :: WellFormed(x.args[i], x.table)
    requires HasType(w, InstantiateField(x.decl, x.args, f.typ, x.table).value, x.table, ALL, true)
    ensures var t := InstantiateField(x.decl, x.args, f.typ, x.table).value;
            t.Base? || (t.Named? && t.name in x.table && x.table[t.name].body.Refined?)
  {
    InstantiateWellFormed(x.decl, x.args, f.typ, x.table);
    var t, u := InstantiateField(x.decl, x.args, f.typ, x.table).value, InstantiateField(y.decl, y.args, g.typ, y.table).value;
    assert u.Base? || (u.Named? && u.name in y.table && y.table[u.name].body.Refined?);
    if t.Named? && u.Named? { assert Unfolds(t, u, x.table, y.table, r); }
  }

  /** A base value that breaks a predicate the sender does not ask for is a value of the sender's field. */
  lemma BreaksOne(x: Side, f: Field, c: Pred, content: string) returns (w: Value)
    requires var t := InstantiateField(x.decl, x.args, f.typ, x.table);
      t.Some? && c !in Preds(f.refinement) + TypePreds(t.value, x.table) &&
      (t.value.Base? || (t.value.Named? && t.value.name in x.table && x.table[t.value.name].body.Refined?))
    ensures w.Prim? && w.content == content && Satisfies(w, f.refinement, AllBut(c, w))
    ensures HasType(w, InstantiateField(x.decl, x.args, f.typ, x.table).value, x.table, AllBut(c, w), true)
  {
    var t := InstantiateField(x.decl, x.args, f.typ, x.table).value;
    w := Prim(if t.Base? then t.base else x.table[t.name].body.base, content);
    AllButSugar(c, w);
    SatisfiesPreds(w, f.refinement, AllBut(c, w));
    forall q, r: Refinement | q in Preds(r) ensures CanonicalPred(q) == q {}
    if t.Named? { SatisfiesPreds(w, x.table[t.name].body.refinement, AllBut(c, w)); }
  }

  /** Where the receiver asks for a predicate the sender does not, some value is lost. */
  lemma UncoveredLosesValue(v: Value, x: Side, y: Side, sameName: bool, name: string, r: Relation)
    returns (broken: Value, sat: Meaning)
    requires WellKeyed(x.table) && WellKeyed(y.table) && PlainSimulation(r, x.table, y.table)
    requires BodiesWalk(x, y, sameName, r) && HasBody(v, x, ALL, true)
    requires forall i | 0 <= i < |x.args| :: WellFormed(x.args[i], x.table)
    requires x.decl.body.Record? && y.decl.body.Record?
    requires var f, g := FindField(x.decl.body.fields, name), FindField(y.decl.body.fields, name);
      f.Some? && g.Some? && !FieldCovered(x, f.value, g.value) && OnBase(g.value.typ, y.decl.typeParams, y.table)
    ensures SugarAgrees(sat) && HasBody(broken, x, sat, true) && !HasBody(broken, y, sat, true)
  {
    var fs, gs := x.decl.body.fields, y.decl.body.fields;
    var f, g := FindField(fs, name).value, FindField(gs, name).value;
    FieldPresent(v.names, fs, name);
    var k :| 0 <= k < |v.names| && v.names[k] == name;
    assert MembersWalk(x, f.typ, y, g.typ, r) by {
      var i :| 0 <= i < |fs| && fs[i] == f;
      assert FieldWalks(x, fs[i], y, gs, r);
    }
    FacesBase(x, f, y, g, r, v.members[k]);
    var t := InstantiateField(x.decl, x.args, f.typ, x.table).value;
    var c :| c in Preds(g.refinement) && c !in Preds(f.refinement) + TypePreds(t, x.table);
    var w := BreaksOne(x, f, c, seq(Longest(v) + 1, _ => 'a'));
    sat := AllBut(c, w);
    AllButSugar(c, w);
    broken := Object(v.names, v.members[k := w]);
    LongestShort(v, |w.content|);
    KeepsBody(v, x, c, w);
    BrokenHas(v, broken, x, k, w, sat);
    SatisfiesPreds(w, g.refinement, sat);
    assert CanonicalPred(c) == c;
    assert broken.members[k] == w && broken.names[k] == name;
  }

  lemma BrokenHas(v: Value, broken: Value, x: Side, k: nat, w: Value, sat: Meaning)
    requires x.decl.body.Record? && HasBody(v, x, sat, true) && k < |v.members|
    requires broken == Object(v.names, v.members[k := w])
    requires var f := FindField(x.decl.body.fields, v.names[k]).value;
      Satisfies(w, f.refinement, sat) && HasType(w, InstantiateField(x.decl, x.args, f.typ, x.table).value, x.table, sat, true)
    ensures HasBody(broken, x, sat, true)
  {
    hide HasType, Satisfies;
    var fs := x.decl.body.fields;
    forall i | 0 <= i < |broken.members|
      ensures var f := FindField(fs, broken.names[i]);
              f.Some? && Satisfies(broken.members[i], f.value.refinement, sat) &&
              var t := InstantiateField(x.decl, x.args, f.value.typ, x.table);
              t.Some? && HasType(broken.members[i], t.value, x.table, sat, true)
    {
      if i != k { assert broken.members[i] == v.members[i]; }
    }
  }

  ghost predicate Safe(t: Ty, u: Ty, a: Table, p: Table) {
    forall v, sat | SugarAgrees(sat) && HasType(v, t, a, sat, true) :: HasType(v, u, p, sat, true)
  }

  lemma SafeCovered(t: Ty, u: Ty, a: Table, p: Table, met: iset<NamePair>)
    requires Uniform(a, p, met) && WellKeyed(a) && WellKeyed(p) && Coherent(a, p, met) && InlineOnBase(p)
    requires AcceptedUse(t, u, a, p, met) && Inhabited(t, a) && Safe(t, u, a, p)
    ensures UseCovered(t, u, a, p)
  {
    hide Uniform, Coherent, BodiesWalk, Compat, HasBody, FieldCovered;
    CompatIffPlainSimilar(t, u, a, p, met);
    if !UseCovered(t, u, a, p) {
      var r: Relation :| PlainSimulation(r, a, p) && Walk(t, u, r);
      assert Unfolds(t, u, a, p, r);
      var x, y := Side(a[t.name], t.args, a), Side(p[u.name], u.args, p);
      var name :| FindField(x.decl.body.fields, name).Some? && FindField(y.decl.body.fields, name).Some? &&
                  !FieldCovered(x, FindField(x.decl.body.fields, name).value, FindField(y.decl.body.fields, name).value);
      var v :| HasType(v, t, a, ALL, true);
      AskedOnBase(x, name, y);
      var broken, sat := UncoveredLosesValue(v, x, y, t.name == u.name, name, r);
      LostValue(broken, t, u, a, p, sat);
    }
  }

  lemma LostValue(v: Value, t: Ty, u: Ty, a: Table, p: Table, sat: Meaning)
    requires t.Named? && u.Named? && t.name in a && u.name in p && SugarAgrees(sat)
    requires HasBody(v, Side(a[t.name], t.args, a), sat, true) && !HasBody(v, Side(p[u.name], u.args, p), sat, true)
    ensures !Safe(t, u, a, p)
  {
    hide HasBody;
    assert HasType(v, t, a, sat, true) && !HasType(v, u, p, sat, true);
  }

  lemma AskedOnBase(x: Side, name: string, y: Side)
    requires x.decl.body.Record? && y.decl.body.Record? && InlineOnBase(y.table) && exists n | n in y.table :: y.table[n] == y.decl
    requires FindField(x.decl.body.fields, name).Some? && FindField(y.decl.body.fields, name).Some?
    requires !FieldCovered(x, FindField(x.decl.body.fields, name).value, FindField(y.decl.body.fields, name).value)
    ensures OnBase(FindField(y.decl.body.fields, name).value.typ, y.decl.typeParams, y.table)
  {
    var n :| n in y.table && y.table[n] == y.decl;
    assert FindField(y.table[n].body.fields, name).Some?;
  }

  /** Values cross with all their inline refinements exactly when every accepted pair of records is covered: the
      receiver writes no more on a field than the sender writes there or in the declaration of the field's type. */
  lemma InlineExactly(a: Table, p: Table, met: iset<NamePair>)
    requires Uniform(a, p, met) && WellKeyed(a) && WellKeyed(p) && Coherent(a, p, met) && InlineOnBase(p)
    ensures (forall t, u | AcceptedUse(t, u, a, p, met) :: Safe(t, u, a, p)) <==> InlineCovered(a, p, met)
  {
    hide Uniform, WellKeyed, Coherent, InlineOnBase, AcceptedUse, UseCovered, Inhabited;
    if InlineCovered(a, p, met) {
      forall t, u, v, sat | AcceptedUse(t, u, a, p, met) && SugarAgrees(sat) && HasType(v, t, a, sat, true)
        ensures HasType(v, u, p, sat, true)
      {
        CompatValues(v, t, u, a, p, sat, met);
      }
    } else if forall t, u | AcceptedUse(t, u, a, p, met) :: Safe(t, u, a, p) {
      forall t, u | AcceptedUse(t, u, a, p, met) && Inhabited(t, a) ensures UseCovered(t, u, a, p) {
        SafeCovered(t, u, a, p, met);
      }
      assert false;
    }
  }
}
