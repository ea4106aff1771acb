/** The intern table: every distinct type is one node, and a type is referred to by the node's number.
    The table is shared by mutation in the checker; here it is the state of one `TypeTable`. */
module Interner {
  import opened Types
  import TypeCore

  type TyId = nat

  /** A type whose inner types are ids. */
  datatype Node =
    | ErrorN
    | BaseN(base: BaseType)
    | AtomN(atom: Atom)
    | NamedN(name: string, kind: NamedKind, args: seq<TyId>)
    | WrapN(wrapper: Wrapper, inner: TyId)
    | PairN(pairing: Pairing, first: TyId, second: TyId)
    | FnN(params: seq<TyId>, ret: TyId)
    | ActorN(identity: TyId)
    | ActorSumN(members: seq<(string, TyId)>)
    | VarN(variable: string)

  /** Every inner type of a node is older than `bound`. */
  ghost predicate ChildrenBelow(n: Node, bound: nat) {
    match n
    case NamedN(_, _, args) => Below(args, bound)
    case WrapN(_, a) => a < bound
    case PairN(_, a, b) => a < bound && b < bound
    case FnN(params, ret) => Below(params, bound) && ret < bound
    case ActorN(a) => a < bound
    case ActorSumN(members) => forall i | 0 <= i < |members| :: members[i].1 < bound
    case _ => true
  }

  ghost predicate Below(ids: seq<TyId>, bound: nat) {
    forall i | 0 <= i < |ids| :: ids[i] < bound
  }

  ghost predicate ChildrenFirst(table: seq<Node>) {
    forall i | 0 <= i < |table| :: ChildrenBelow(table[i], i)
  }

  ghost predicate NoDuplicates(table: seq<Node>) {
    forall i, j | 0 <= i < j < |table| :: table[i] != table[j]
  }

  ghost predicate WellFormed(table: seq<Node>) {
    ChildrenFirst(table) && NoDuplicates(table)
  }

  /** The type an id stands for. */
  ghost function Deep(table: seq<Node>, id: TyId): Ty
    requires ChildrenFirst(table) && id < |table|
    decreases id, 1
  {
    assert ChildrenBelow(table[id], id);
    match table[id]
    case ErrorN => Error
    case BaseN(b) => Base(b)
    case AtomN(a) => Ty.Atom(a)
    case NamedN(n, k, args) => Named(n, k, DeepAll(table, args, id))
    case WrapN(w, a) => Wrap(w, Deep(table, a))
    case PairN(p, a, b) => Pair(p, Deep(table, a), Deep(table, b))
    case FnN(params, ret) => Fn(DeepAll(table, params, id), Deep(table, ret))
    case ActorN(a) => Actor(Deep(table, a))
    case ActorSumN(members) =>
      ActorSum(seq(|members|, i requires 0 <= i < |members| => (members[i].0, Deep(table, members[i].1))))
    case VarN(n) => Var(n)
  }

  ghost function DeepAll(table: seq<Node>, ids: seq<TyId>, bound: nat): (ts: seq<Ty>)
    requires ChildrenFirst(table) && bound <= |table| && Below(ids, bound)
    ensures |ts| == |ids| && forall i | 0 <= i < |ids| :: ts[i] == Deep(table, ids[i])
    decreases bound, 0
  {
    seq(|ids|, i requires 0 <= i < |ids| => Deep(table, ids[i]))
  }

  ghost function DeepMap(table: seq<Node>, s: map<string, TyId>): (m: TypeCore.Subst)
    requires ChildrenFirst(table) && forall n | n in s :: s[n] < |table|
    ensures m.Keys == s.Keys && forall n | n in s :: m[n] == Deep(table, s[n])
  {
    map n | n in s :: Deep(table, s[n])
  }

  /** Two ids of one table stand for the same type exactly when they are equal. */
  lemma {:induction false} Canonical(table: seq<Node>, i: TyId, j: TyId)
    requires WellFormed(table) && i < |table| && j < |table|
    ensures Deep(table, i) == Deep(table, j) <==> i == j
    decreases i, 1
  {
    if Deep(table, i) == Deep(table, j) {
      assert ChildrenBelow(table[i], i) && ChildrenBelow(table[j], j);
      match (table[i], table[j]) {
      case (NamedN(_, _, ps), NamedN(_, _, qs)) => CanonicalAll(table, ps, qs, i, j);
      case (WrapN(_, a), WrapN(_, b)) => Canonical(table, a, b);
      case (PairN(_, a, b), PairN(_, c, d)) => Canonical(table, a, c); Canonical(table, b, d);
      case (FnN(ps, r), FnN(qs, s)) => CanonicalAll(table, ps, qs, i, j); Canonical(table, r, s);
      case (ActorN(a), ActorN(b)) => Canonical(table, a, b);
      case (ActorSumN(ms), ActorSumN(ns)) =>
        var ts, us := Deep(table, i).members, Deep(table, j).members;
        assert |ms| == |ts| && |ns| == |us|;
        forall k | 0 <= k < |ms| ensures ms[k] == ns[k] {
          assert ts[k] == us[k];
          Canonical(table, ms[k].1, ns[k].1);
        }
        assert ms == ns;
      case _ =>
      }
      assert table[i] == table[j];
    }
  }

  lemma {:induction false} CanonicalAll(table: seq<Node>, ps: seq<TyId>, qs: seq<TyId>, i: nat, j: nat)
    requires WellFormed(table) && i <= |table| && j <= |table| && Below(ps, i) && Below(qs, j)
    requires DeepAll(table, ps, i) == DeepAll(table, qs, j)
    ensures ps == qs
    decreases i, 0
  {
    assert |ps| == |qs|;
    forall k | 0 <= k < |ps| ensures ps[k] == qs[k] {
      assert DeepAll(table, ps, i)[k] == DeepAll(table, qs, j)[k];
      Canonical(table, ps[k], qs[k]);
    }
  }

  /** A table that has grown still gives every older id its old type. */
  lemma {:induction false} Stable(table: seq<Node>, later: seq<Node>, id: TyId)
    requires ChildrenFirst(table) && ChildrenFirst(later) && table <= later && id < |table|
    ensures Deep(later, id) == Deep(table, id)
    decreases id, 1
  {
    assert later[id] == table[id] && ChildrenBelow(table[id], id);
    match table[id]
    case NamedN(_, _, args) => StableAll(table, later, args, id);
    case WrapN(_, a) => Stable(table, later, a);
    case PairN(_, a, b) => Stable(table, later, a); Stable(table, later, b);
    case FnN(params, ret) => StableAll(table, later, params, id); Stable(table, later, ret);
    case ActorN(a) => Stable(table, later, a);
    case ActorSumN(ms) =>
      forall k | 0 <= k < |ms| ensures Deep(later, ms[k].1) == Deep(table, ms[k].1) {
        Stable(table, later, ms[k].1);
      }
      assert Deep(later, id).members == Deep(table, id).members;
    case _ =>
  }

  lemma {:induction false} StableAll(table: seq<Node>, later: seq<Node>, ids: seq<TyId>, bound: nat)
    requires ChildrenFirst(table) && ChildrenFirst(later) && table <= later
    requires bound <= |table| && Below(ids, bound)
    ensures DeepAll(later, ids, bound) == DeepAll(table, ids, bound)
    decreases bound, 0
  {
    forall k | 0 <= k < |ids| ensures Deep(later, ids[k]) == Deep(table, ids[k]) {
      Stable(table, later, ids[k]);
    }
  }

  /** The type a node stands for, once its inner types are in the table. */
  ghost function DeepNode(table: seq<Node>, n: Node): Ty
    requires ChildrenFirst(table) && ChildrenBelow(n, |table|)
  {
    match n
    case ErrorN => Error
    case BaseN(b) => Base(b)
    case AtomN(a) => Ty.Atom(a)
    case NamedN(m, k, args) => Named(m, k, DeepAll(table, args, |table|))
    case WrapN(w, a) => Wrap(w, Deep(table, a))
    case PairN(p, a, b) => Pair(p, Deep(table, a), Deep(table, b))
    case FnN(params, ret) => Fn(DeepAll(table, params, |table|), Deep(table, ret))
    case ActorN(a) => Actor(Deep(table, a))
    case ActorSumN(members) =>
      ActorSum(seq(|members|, i requires 0 <= i < |members| => (members[i].0, Deep(table, members[i].1))))
    case VarN(m) => Var(m)
  }

  lemma DeepUnfold(table: seq<Node>, id: TyId)
    requires ChildrenFirst(table) && id < |table|
    ensures ChildrenBelow(table[id], |table|) && Deep(table, id) == DeepNode(table, table[id])
  {
    assert ChildrenBelow(table[id], id);
    match table[id]
    case NamedN(_, _, args) => assert DeepAll(table, args, id) == DeepAll(table, args, |table|);
    case FnN(params, _) => assert DeepAll(table, params, id) == DeepAll(table, params, |table|);
    case ActorSumN(_) => assert Deep(table, id).members == DeepNode(table, table[id]).members;
    case _ =>
  }

  /** The table has only grown, and every older id keeps its type. */
  ghost predicate Grown(table: seq<Node>, later: seq<Node>)
    requires ChildrenFirst(table) && ChildrenFirst(later)
  {
    |table| <= |later| && forall i | 0 <= i < |table| :: Deep(later, i) == Deep(table, i)
  }

  lemma GrownByStability(table: seq<Node>, later: seq<Node>)
    requires ChildrenFirst(table) && ChildrenFirst(later) && table <= later
    ensures Grown(table, later)
  {
    forall i | 0 <= i < |table| ensures Deep(later, i) == Deep(table, i) {
      Stable(table, later, i);
    }
  }

  lemma DeepNodeGrown(table: seq<Node>, later: seq<Node>, n: Node)
    requires ChildrenFirst(table) && ChildrenFirst(later) && Grown(table, later) && ChildrenBelow(n, |table|)
    ensures ChildrenBelow(n, |later|) && DeepNode(later, n) == DeepNode(table, n)
  {
    match n
    case NamedN(_, _, args) => DeepAllGrown(table, later, args);
    case FnN(params, _) => DeepAllGrown(table, later, params);
    case ActorSumN(_) => assert DeepNode(later, n).members == DeepNode(table, n).members;
    case _ =>
  }

  lemma DeepAllGrown(table: seq<Node>, later: seq<Node>, ids: seq<TyId>)
    requires ChildrenFirst(table) && ChildrenFirst(later) && Grown(table, later) && Below(ids, |table|)
    ensures Below(ids, |later|) && DeepAll(later, ids, |later|) == DeepAll(table, ids, |table|)
  {
  }

  /** Some id of the table stands for the type. */
  ghost predicate Known(table: seq<Node>, t: Ty)
    requires ChildrenFirst(table)
  {
    exists id :: 0 <= id < |table| && Deep(table, id) == t
  }

  /** The inner types of a known type are known. */
  lemma InnerKnown(table: seq<Node>, t: Ty)
    requires ChildrenFirst(table) && Known(table, t)
    ensures t.Named? ==> forall i | 0 <= i < |t.args| :: Known(table, t.args[i])
    ensures t.Wrap? ==> Known(table, t.inner)
    ensures t.Pair? ==> Known(table, t.first) && Known(table, t.second)
    ensures t.Fn? ==> Known(table, t.ret) && forall i | 0 <= i < |t.params| :: Known(table, t.params[i])
    ensures t.Actor? ==> Known(table, t.identity)
    ensures t.ActorSum? ==> forall i | 0 <= i < |t.members| :: Known(table, t.members[i].1)
  {
    hide Deep;
    var id :| 0 <= id < |table| && Deep(table, id) == t;
    DeepUnfold(table, id);
    match table[id]
    case ActorSumN(ms) => assert forall i | 0 <= i < |ms| :: t.members[i].1 == Deep(table, ms[i].1);
    case NamedN(_, _, args) => assert forall i | 0 <= i < |args| :: t.args[i] == Deep(table, args[i]);
    case FnN(params, ret) =>
      assert t.ret == Deep(table, ret) && forall i | 0 <= i < |params| :: t.params[i] == Deep(table, params[i]);
    case _ =>
  }

  /** A node that would stand for a type the table knows is already in the table. */
  lemma KnownNode(table: seq<Node>, n: Node)
    requires WellFormed(table) && ChildrenBelow(n, |table|) && Known(table, DeepNode(table, n))
    ensures n in table
  {
    hide Deep;
    var id :| 0 <= id < |table| && Deep(table, id) == DeepNode(table, n);
    if n !in table {
      var later := table + [n];
      assert WellFormed(later);
      GrownByStability(table, later);
      DeepUnfold(later, |table|);
      DeepNodeGrown(table, later, n);
      Canonical(later, id, |table|);
    }
  }

  ghost predicate Indexes(index: map<Node, TyId>, table: seq<Node>) {
    (forall i | 0 <= i < |table| :: table[i] in index && index[table[i]] == i) &&
    (forall n | n in index :: index[n] < |table| && table[index[n]] == n)
  }

  class TypeTable {
    var table: seq<Node>
    var index: map<Node, TyId>

    ghost predicate Valid()
      reads this
    {
      WellFormed(table) && Indexes(index, table)
    }

    constructor ()
      ensures Valid() && table == []
    {
      table, index := [], map[];
    }

    /** One node per type: an already present node is found, a new one is added at the end. */
    method Intern(node: Node) returns (id: TyId)
      requires Valid() && ChildrenBelow(node, |table|)
      modifies this
      ensures Valid() && id < |table| && table[id] == node
      ensures table == if node in old(table) then old(table) else old(table) + [node]
      ensures Grown(old(table), table) && Deep(table, id) == old(DeepNode(table, node))
    {
      if node in index {
        DeepUnfold(table, index[node]);
        return index[node];
      }
      id := |table|;
      table := table + [node];
      index := index[node := id];
      GrownByStability(old(table), table);
      DeepUnfold(table, id);
      DeepNodeGrown(old(table), table, node);
    }

    /** Interning a tree from the leaves up, as resolution does. A type the table already knows adds nothing. */
    method InternTree(t: Ty) returns (id: TyId)
      requires Valid()
      modifies this
      ensures Valid() && id < |table| && Grown(old(table), table) && Deep(table, id) == t
      ensures Known(old(table), t) ==> table == old(table)
      decreases t, 2
    {
      hide Deep, NoDuplicates, Indexes;
      var node := InternInner(t);
      if Known(old(table), t) {
        KnownNode(table, node);
      }
      id := Intern(node);
    }

    method InternInner(t: Ty) returns (node: Node)
      requires Valid()
      modifies this
      ensures Valid() && Grown(old(table), table)
      ensures ChildrenBelow(node, |table|) && DeepNode(table, node) == t
      ensures Known(old(table), t) ==> table == old(table)
      decreases t, 1
    {
      hide Deep, NoDuplicates, Indexes;
      if Known(table, t) {
        InnerKnown(table, t);
      }
      match t {
        case Error => return ErrorN;
        case Base(b) => return BaseN(b);
        case Atom(a) => return AtomN(a);
        case Var(n) => return VarN(n);
        case Wrap(w, a) =>
          var i := InternTree(a);
          return WrapN(w, i);
        case Pair(p, a, b) =>
          var i := InternTree(a);
          var j := InternTree(b);
          return PairN(p, i, j);
        case Named(n, k, args) =>
          var ids := InternTrees(args, t);
          assert DeepAll(table, ids, |table|) == args;
          return NamedN(n, k, ids);
        case Fn(params, ret) =>
          var ids := InternTrees(params, t);
          ghost var middle := table;
          var j := InternTree(ret);
          DeepAllGrown(middle, table, ids);
          assert DeepAll(table, ids, |table|) == params;
          return FnN(ids, j);
        case Actor(a) =>
          var i := InternTree(a);
          return ActorN(i);
        case ActorSum(members) =>
          var ids := InternTrees(seq(|members|, i requires 0 <= i < |members| => members[i].1), t);
          node := ActorSumN(seq(|members|, i requires 0 <= i < |members| => (members[i].0, ids[i])));
          assert DeepNode(table, node).members == members;
      }
    }

    method InternTrees(ts: seq<Ty>, ghost parent: Ty) returns (ids: seq<TyId>)
      requires Valid() && forall i | 0 <= i < |ts| :: ts[i] < parent
      modifies this
      ensures Valid() && Grown(old(table), table) && Below(ids, |table|)
      ensures |ids| == |ts| && forall i | 0 <= i < |ts| :: Deep(table, ids[i]) == ts[i]
      ensures (forall i | 0 <= i < |ts| :: Known(old(table), ts[i])) ==> table == old(table)
      decreases parent, 0
    {
      hide Deep, NoDuplicates, Indexes;
      ghost var before := table;
      ids := [];
      for k := 0 to |ts|
        invariant Valid() && Grown(before, table) && |ids| == k && Below(ids, |table|)
        invariant forall i | 0 <= i < k :: Deep(table, ids[i]) == ts[i]
        invariant (forall i | 0 <= i < |ts| :: Known(before, ts[i])) ==> table == before
      {
        var id := InternTree(ts[k]);
        ids := ids + [id];
      }
    }

    /** `substitute` on ids: the result stands for the substituted tree, and no older id changes meaning. */
    method Substitute(t: TyId, s: map<string, TyId>) returns (r: TyId)
      requires Valid() && t < |table| && forall n | n in s :: s[n] < |table|
      modifies this
      ensures Valid() && r < |table| && Grown(old(table), table)
      ensures Deep(table, r) == TypeCore.Substitute(old(Deep(table, t)), old(DeepMap(table, s)))
      decreases t, 2
    {
      hide Deep, NoDuplicates, Indexes;
      DeepUnfold(table, t);
      assert ChildrenBelow(table[t], t);
      match table[t] {
        case VarN(n) => r := if n in s then s[n] else t;
        case ErrorN | BaseN(_) | AtomN(_) | ActorN(_) | ActorSumN(_) => r := t;
        case _ =>
          var node := SubstituteInner(table[t], s, t);
          r := Intern(node);
      }
    }

    method SubstituteInner(node: Node, s: map<string, TyId>, ghost bound: nat) returns (r: Node)
      requires Valid() && bound <= |table| && forall n | n in s :: s[n] < |table|
      requires ChildrenBelow(node, bound) && (node.WrapN? || node.PairN? || node.FnN? || node.NamedN?)
      modifies this
      ensures Valid() && Grown(old(table), table) && ChildrenBelow(r, |table|)
      ensures DeepNode(table, r) == TypeCore.Substitute(old(DeepNode(table, node)), old(DeepMap(table, s)))
      decreases bound, 1
    {
      hide Deep, NoDuplicates, Indexes;
      match node {
        case WrapN(w, a) =>
          var i := Substitute(a, s);
          r := WrapN(w, i);
        case PairN(p, a, b) =>
          var i := Substitute(a, s);
          assert DeepMap(table, s) == old(DeepMap(table, s));
          var j := Substitute(b, s);
          r := PairN(p, i, j);
        case FnN(params, ret) =>
          var ids := SubstituteAll(params, s, bound);
          ghost var middle := table;
          assert DeepMap(table, s) == old(DeepMap(table, s));
          var j := Substitute(ret, s);
          DeepAllGrown(middle, table, ids);
          r := FnN(ids, j);
        case NamedN(n, k, args) =>
          var ids := SubstituteAll(args, s, bound);
          r := NamedN(n, k, ids);
      }
    }

    method SubstituteAll(ts: seq<TyId>, s: map<string, TyId>, ghost bound: nat) returns (rs: seq<TyId>)
      requires Valid() && bound <= |table| && Below(ts, bound) && forall n | n in s :: s[n] < |table|
      modifies this
      ensures Valid() && Grown(old(table), table) && Below(rs, |table|)
      ensures DeepAll(table, rs, |table|) ==
              TypeCore.SubstituteAll(old(DeepAll(table, ts, |table|)), old(DeepMap(table, s)))
      decreases bound, 0
    {
      hide Deep, NoDuplicates, Indexes;
      ghost var before := table;
      rs := [];
      for k := 0 to |ts|
        invariant Valid() && Grown(before, table) && |rs| == k && Below(rs, |table|)
        invariant forall i | 0 <= i < k ::
          Deep(table, rs[i]) == TypeCore.Substitute(Deep(before, ts[i]), DeepMap(before, s))
      {
        assert DeepMap(table, s) == DeepMap(before, s);
        var r := Substitute(ts[k], s);
        rs := rs + [r];
      }
    }
  }

  /** `unify`'s bindings, updated in place. */
  class Bindings {
    var subst: map<string, TyId>

    ghost predicate Valid(tys: TypeTable)
      reads this, tys
    {
      tys.Valid() && forall n | n in subst :: subst[n] < |tys.table|
    }

    /** Comparing a variable's binding by id is comparing the types: the call answers and binds what
        unification on the trees does. */
    method Unify(tys: TypeTable, pattern: TyId, actual: TyId) returns (ok: bool)
      requires Valid(tys) && pattern < |tys.table| && actual < |tys.table|
      modifies this
      ensures Valid(tys)
      ensures TypeCore.Unified(ok, DeepMap(tys.table, subst)) ==
              TypeCore.Unify(Deep(tys.table, pattern), Deep(tys.table, actual), old(DeepMap(tys.table, subst)))
      decreases pattern, 1
    {
      hide Deep, NoDuplicates, Indexes;
      DeepUnfold(tys.table, pattern);
      DeepUnfold(tys.table, actual);
      assert ChildrenBelow(tys.table[pattern], pattern);
      match (tys.table[pattern], tys.table[actual]) {
        case (VarN(n), _) => ok := BindVariable(tys, n, actual);
        case (PairN(p, a1, b1), PairN(q, a2, b2)) =>
          if p != q { return true; }
          ok := Unify(tys, a1, a2);
          if ok { ok := Unify(tys, b1, b2); }
        case (WrapN(v, a1), WrapN(w, a2)) =>
          if v != w { return true; }
          ok := Unify(tys, a1, a2);
        case (FnN(ps, r1), FnN(qs, r2)) =>
          if |ps| != |qs| { return false; }
          ok := UnifyAll(tys, ps, qs, pattern);
          if ok { ok := Unify(tys, r1, r2); }
        case (NamedN(m, _, ps), NamedN(n, _, qs)) =>
          if m != n || |ps| != |qs| { return true; }
          ok := UnifyAll(tys, ps, qs, pattern);
        case _ => return true;
      }
    }

    method BindVariable(tys: TypeTable, n: string, actual: TyId) returns (ok: bool)
      requires Valid(tys) && actual < |tys.table|
      modifies this
      ensures Valid(tys)
      ensures TypeCore.Unified(ok, DeepMap(tys.table, subst)) ==
              TypeCore.Unify(Var(n), Deep(tys.table, actual), old(DeepMap(tys.table, subst)))
    {
      hide Deep, NoDuplicates, Indexes;
      if n in subst {
        Canonical(tys.table, subst[n], actual);
        return subst[n] == actual;
      }
      subst := subst[n := actual];
      assert DeepMap(tys.table, subst) == old(DeepMap(tys.table, subst))[n := Deep(tys.table, actual)];
      return true;
    }

    method UnifyAll(tys: TypeTable, ps: seq<TyId>, qs: seq<TyId>, ghost bound: nat) returns (ok: bool)
      requires Valid(tys) && bound <= |tys.table| && |ps| == |qs| && Below(ps, bound) && Below(qs, |tys.table|)
      modifies this
      ensures Valid(tys)
      ensures TypeCore.Unified(ok, DeepMap(tys.table, subst)) ==
              TypeCore.UnifyAll(DeepAll(tys.table, ps, |tys.table|), DeepAll(tys.table, qs, |tys.table|),
                                old(DeepMap(tys.table, subst)))
      decreases bound, 0, |ps|
    {
      hide Deep, NoDuplicates, Indexes;
      if ps == [] { return true; }
      assert DeepAll(tys.table, ps, |tys.table|)[1..] == DeepAll(tys.table, ps[1..], |tys.table|);
      assert DeepAll(tys.table, qs, |tys.table|)[1..] == DeepAll(tys.table, qs[1..], |tys.table|);
      ok := Unify(tys, ps[0], qs[0]);
      if ok { ok := UnifyAll(tys, ps[1..], qs[1..], bound); }
    }
  }
}
