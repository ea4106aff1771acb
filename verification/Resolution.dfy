/** Reading written types against a table, and a generic declaration's fields at a use
    (`resolve_type_ref_in`, `type_param_subst`, `instantiate_field_ty`). */
module Resolution {
  import opened Types
  import opened TypeCore

  /** The declaration's own name is kept, whatever key it was found under. */
  function NamedTy(decl: TypeDecl, args: seq<Ty>): Ty {
    Named(decl.name, KindOf(decl.body), args)
  }

  /** A type parameter in scope shadows a declaration of the same name, except at the head of an
      application. A name with no declaration yields no type. */
  function Resolve(r: TypeRef, table: Table, vars: set<string>): Option<Ty>
    decreases r, 1
  {
    match r
    case BaseRef(b) => Some(Base(b))
    case AtomRef(a) => Some(Ty.Atom(a))
    case NamedRef(n) =>
      if n in vars then Some(Var(n)) else if n in table then Some(NamedTy(table[n], [])) else None
    case WrapRef(w, a) =>
      (match Resolve(a, table, vars) case None => None case Some(t) => Some(Wrap(w, t)))
    case PairRef(p, a, b) =>
      (match (Resolve(a, table, vars), Resolve(b, table, vars))
       case (Some(t), Some(u)) => Some(Pair(p, t, u))
       case _ => None)
    case FnRef(params, ret) =>
      (match (ResolveAll(params, table, vars), Resolve(ret, table, vars))
       case (Some(ts), Some(t)) => Some(Fn(ts, t))
       case _ => None)
    case HistoryRef(_) => None
    case AppRef(n, args) =>
      if n !in table then None else
        (match ResolveAll(args, table, vars) case None => None case Some(ts) => Some(NamedTy(table[n], ts)))
  }

  function ResolveAll(rs: seq<TypeRef>, table: Table, vars: set<string>): Option<seq<Ty>>
    decreases rs, 0
  {
    if rs == [] then Some([]) else
      match (Resolve(rs[0], table, vars), ResolveAll(rs[1..], table, vars))
      case (Some(t), Some(ts)) => Some([t] + ts)
      case _ => None
  }

  /** Parameters paired with arguments; of two parameters with one name the later one counts. */
  function ParamSubst(params: seq<string>, args: seq<Ty>): (s: Subst)
    requires |params| == |args|
    ensures s.Keys == set p | p in params
  {
    if params == [] then map[] else map[params[0] := args[0]] + ParamSubst(params[1..], args[1..])
  }

  function InstantiateField(decl: TypeDecl, args: seq<Ty>, field: TypeRef, table: Table): Option<Ty> {
    if decl.typeParams == [] then Resolve(field, table, {})
    else if |decl.typeParams| != |args| then None
    else
      match Resolve(field, table, set p | p in decl.typeParams)
      case None => None
      case Some(t) => Some(Substitute(t, ParamSubst(decl.typeParams, args)))
  }

  // ----- reading back what was written -----

  /** The type has a spelling over this table with these parameters in scope. */
  predicate Writable(t: Ty, table: Table, vars: set<string>) {
    match t
    case Base(_) => true
    case Atom(_) => true
    case Var(n) => n in vars
    case Wrap(_, a) => Writable(a, table, vars)
    case Pair(_, a, b) => Writable(a, table, vars) && Writable(b, table, vars)
    case Fn(params, ret) => (forall i | 0 <= i < |params| :: Writable(params[i], table, vars)) && Writable(ret, table, vars)
    case Named(n, k, args) =>
      n in table && table[n].name == n && k == KindOf(table[n].body) && (args == [] ==> n !in vars) &&
      forall i | 0 <= i < |args| :: Writable(args[i], table, vars)
    case Error | Actor(_) | ActorSum(_) => false
  }

  function Written(t: Ty): TypeRef {
    match t
    case Base(b) => BaseRef(b)
    case Atom(a) => AtomRef(a)
    case Var(n) => NamedRef(n)
    case Wrap(w, a) => WrapRef(w, Written(a))
    case Pair(p, a, b) => PairRef(p, Written(a), Written(b))
    case Fn(params, ret) => FnRef(WrittenAll(params), Written(ret))
    case Named(n, _, args) => if args == [] then NamedRef(n) else AppRef(n, WrittenAll(args))
    case Error | Actor(_) | ActorSum(_) => AtomRef(Unit)
  }

  function WrittenAll(ts: seq<Ty>): (rs: seq<TypeRef>)
    ensures |rs| == |ts|
  {
    if ts == [] then [] else [Written(ts[0])] + WrittenAll(ts[1..])
  }

  /** Reading the spelling of a type gives that type. */
  lemma {:induction false} ResolveWritten(t: Ty, table: Table, vars: set<string>)
    requires Writable(t, table, vars)
    ensures Resolve(Written(t), table, vars) == Some(t)
    decreases t, 1
  {
    match t
    case Wrap(_, a) => ResolveWritten(a, table, vars);
    case Pair(_, a, b) => ResolveWritten(a, table, vars); ResolveWritten(b, table, vars);
    case Fn(params, ret) => ResolveAllWritten(params, table, vars); ResolveWritten(ret, table, vars);
    case Named(_, _, args) => ResolveAllWritten(args, table, vars);
    case _ =>
  }

  lemma {:induction false} ResolveAllWritten(ts: seq<Ty>, table: Table, vars: set<string>)
    requires forall i | 0 <= i < |ts| :: Writable(ts[i], table, vars)
    ensures ResolveAll(WrittenAll(ts), table, vars) == Some(ts)
    decreases ts, 0
  {
    if ts != [] {
      ResolveWritten(ts[0], table, vars);
      ResolveAllWritten(ts[1..], table, vars);
      assert WrittenAll(ts)[1..] == WrittenAll(ts[1..]) && [ts[0]] + ts[1..] == ts;
    }
  }

  lemma {:induction false} ParamSubstAt(params: seq<string>, args: seq<Ty>, i: nat)
    requires |params| == |args| && i < |params| && params[i] !in params[i + 1..]
    ensures ParamSubst(params, args)[params[i]] == args[i]
  {
    if i > 0 {
      assert params[1..][i - 1] == params[i] && params[1..][i..] == params[i + 1..];
      ParamSubstAt(params[1..], args[1..], i - 1);
    }
  }

  /** A field that is declared as a parameter has, at a use, the type given for that parameter; of two
      parameters with one name the later one counts. */
  lemma InstantiateParameter(decl: TypeDecl, args: seq<Ty>, table: Table, i: nat)
    requires |decl.typeParams| == |args| && i < |args| && decl.typeParams[i] !in decl.typeParams[i + 1..]
    ensures InstantiateField(decl, args, NamedRef(decl.typeParams[i]), table) == Some(args[i])
  {
    ParamSubstAt(decl.typeParams, args, i);
  }

  // ----- what a resolved type looks like -----

  lemma {:induction false} ResolveVars(r: TypeRef, table: Table, vars: set<string>)
    ensures Resolve(r, table, vars).Some? ==> Vars(Resolve(r, table, vars).value) <= vars
    decreases r, 1
  {
    match r
    case WrapRef(_, a) => ResolveVars(a, table, vars);
    case PairRef(_, a, b) => ResolveVars(a, table, vars); ResolveVars(b, table, vars);
    case FnRef(params, ret) => ResolveAllVars(params, table, vars); ResolveVars(ret, table, vars);
    case AppRef(_, args) => ResolveAllVars(args, table, vars);
    case _ =>
  }

  lemma {:induction false} ResolveAllVars(rs: seq<TypeRef>, table: Table, vars: set<string>)
    ensures ResolveAll(rs, table, vars).Some? ==> VarsAll(ResolveAll(rs, table, vars).value) <= vars
    decreases rs, 0
  {
    if rs != [] {
      ResolveVars(rs[0], table, vars);
      ResolveAllVars(rs[1..], table, vars);
      if ResolveAll(rs, table, vars).Some? {
        var ts := ResolveAll(rs, table, vars).value;
        assert ts[1..] == ResolveAll(rs[1..], table, vars).value;
      }
    }
  }

  lemma {:induction false} ParamSubstVars(params: seq<string>, args: seq<Ty>)
    requires |params| == |args|
    ensures forall n | n in ParamSubst(params, args) :: Vars(ParamSubst(params, args)[n]) <= VarsAll(args)
  {
    if params != [] {
      ParamSubstVars(params[1..], args[1..]);
    }
  }

  /** Whatever is left open in an instantiated field comes from the arguments. */
  lemma InstantiateClosed(decl: TypeDecl, args: seq<Ty>, field: TypeRef, table: Table)
    requires InstantiateField(decl, args, field, table).Some?
    ensures Vars(InstantiateField(decl, args, field, table).value) <= VarsAll(args)
  {
    if decl.typeParams == [] {
      ResolveVars(field, table, {});
    } else {
      var params := set p | p in decl.typeParams;
      ResolveVars(field, table, params);
      ParamSubstVars(decl.typeParams, args);
      SubstituteVars(Resolve(field, table, params).value, ParamSubst(decl.typeParams, args), VarsAll(args));
    }
  }

  lemma {:induction false} ParamSubstSubstitute(params: seq<string>, args: seq<Ty>, s: Subst)
    requires |params| == |args|
    ensures forall n | n in ParamSubst(params, args) ::
      ParamSubst(params, SubstituteAll(args, s))[n] == Substitute(ParamSubst(params, args)[n], s)
  {
    if params != [] {
      ParamSubstSubstitute(params[1..], args[1..], s);
      assert SubstituteAll(args, s)[1..] == SubstituteAll(args[1..], s);
    }
  }

  /** Instantiating and then substituting is instantiating at the substituted arguments. */
  lemma InstantiateCommutes(decl: TypeDecl, args: seq<Ty>, field: TypeRef, table: Table, s: Subst)
    ensures InstantiateField(decl, SubstituteAll(args, s), field, table) ==
            (match InstantiateField(decl, args, field, table)
             case None => None
             case Some(t) => Some(Substitute(t, s)))
  {
    hide Resolve, Substitute, ParamSubst, Vars;
    if decl.typeParams == [] {
      ResolveVars(field, table, {});
      if Resolve(field, table, {}).Some? {
        var t := Resolve(field, table, {}).value;
        SubstituteAgree(t, s, map[]);
        SubstituteNothing(t);
      }
    } else if |decl.typeParams| == |args| {
      var params := set p | p in decl.typeParams;
      ResolveVars(field, table, params);
      if Resolve(field, table, params).Some? {
        var t := Resolve(field, table, params).value;
        var inner := ParamSubst(decl.typeParams, args);
        SubstituteCompose(t, inner, s);
        ParamSubstSubstitute(decl.typeParams, args, s);
        SubstituteAgree(t, ParamSubst(decl.typeParams, SubstituteAll(args, s)), Compose(inner, s));
      }
    }
  }

  lemma {:induction false} SubstituteNothing(t: Ty)
    ensures Substitute(t, map[]) == t
  {
    match t
    case Wrap(_, a) => SubstituteNothing(a);
    case Pair(_, a, b) => SubstituteNothing(a); SubstituteNothing(b);
    case Fn(params, ret) => SubstituteNothingAll(params); SubstituteNothing(ret);
    case Named(_, _, args) => SubstituteNothingAll(args);
    case _ =>
  }

  lemma {:induction false} SubstituteNothingAll(ts: seq<Ty>)
    ensures SubstituteAll(ts, map[]) == ts
  {
    forall i | 0 <= i < |ts| ensures Substitute(ts[i], map[]) == ts[i] { SubstituteNothing(ts[i]); }
  }

  /** The kind recorded in each named type is the one its declaration in the table has. */
  predicate WellKinded(t: Ty, table: Table) {
    match t
    case Named(n, k, args) =>
      (n in table ==> k == KindOf(table[n].body)) && forall i | 0 <= i < |args| :: WellKinded(args[i], table)
    case Wrap(_, a) => WellKinded(a, table)
    case Pair(_, a, b) => WellKinded(a, table) && WellKinded(b, table)
    case Fn(params, ret) => (forall i | 0 <= i < |params| :: WellKinded(params[i], table)) && WellKinded(ret, table)
    case _ => true
  }

  /** A type read from source carries no error, and its kinds are the table's. */
  lemma {:induction false} ResolveWellFormed(r: TypeRef, table: Table, vars: set<string>)
    requires WellKeyed(table)
    ensures Resolve(r, table, vars).Some? ==>
      ErrorFree(Resolve(r, table, vars).value) && WellKinded(Resolve(r, table, vars).value, table)
    decreases r, 1
  {
    match r
    case WrapRef(_, a) => ResolveWellFormed(a, table, vars);
    case PairRef(_, a, b) => ResolveWellFormed(a, table, vars); ResolveWellFormed(b, table, vars);
    case FnRef(params, ret) => ResolveAllWellFormed(params, table, vars); ResolveWellFormed(ret, table, vars);
    case AppRef(_, args) => ResolveAllWellFormed(args, table, vars);
    case _ =>
  }

  lemma {:induction false} ResolveAllWellFormed(rs: seq<TypeRef>, table: Table, vars: set<string>)
    requires WellKeyed(table)
    ensures ResolveAll(rs, table, vars).Some? ==>
      forall i | 0 <= i < |ResolveAll(rs, table, vars).value| ::
        ErrorFree(ResolveAll(rs, table, vars).value[i]) && WellKinded(ResolveAll(rs, table, vars).value[i], table)
    decreases rs, 0
  {
    if rs != [] {
      ResolveWellFormed(rs[0], table, vars);
      ResolveAllWellFormed(rs[1..], table, vars);
    }
  }

  ghost predicate WellFormed(t: Ty, table: Table) {
    ErrorFree(t) && WellKinded(t, table)
  }

  lemma {:induction false} SubstituteWellFormed(t: Ty, s: Subst, table: Table)
    requires WellFormed(t, table) && forall n | n in s :: WellFormed(s[n], table)
    ensures WellFormed(Substitute(t, s), table)
  {
    match t
    case Wrap(_, a) => SubstituteWellFormed(a, s, table);
    case Pair(_, a, b) => SubstituteWellFormed(a, s, table); SubstituteWellFormed(b, s, table);
    case Fn(params, ret) =>
      forall i | 0 <= i < |params| ensures WellFormed(Substitute(params[i], s), table) {
        SubstituteWellFormed(params[i], s, table);
      }
      SubstituteWellFormed(ret, s, table);
    case Named(_, _, args) =>
      forall i | 0 <= i < |args| ensures WellFormed(Substitute(args[i], s), table) {
        SubstituteWellFormed(args[i], s, table);
      }
    case _ =>
  }

  lemma {:induction false} ParamSubstWellFormed(params: seq<string>, args: seq<Ty>, table: Table)
    requires |params| == |args| && forall i | 0 <= i < |args| :: WellFormed(args[i], table)
    ensures forall n | n in ParamSubst(params, args) :: WellFormed(ParamSubst(params, args)[n], table)
  {
    if params != [] {
      ParamSubstWellFormed(params[1..], args[1..], table);
    }
  }

  lemma InstantiateWellFormed(decl: TypeDecl, args: seq<Ty>, field: TypeRef, table: Table)
    requires WellKeyed(table) && forall i | 0 <= i < |args| :: WellFormed(args[i], table)
    requires InstantiateField(decl, args, field, table).Some?
    ensures WellFormed(InstantiateField(decl, args, field, table).value, table)
  {
    ResolveWellFormed(field, table, set p | p in decl.typeParams);
    ResolveWellFormed(field, table, {});
    if decl.typeParams != [] {
      ParamSubstWellFormed(decl.typeParams, args, table);
      SubstituteWellFormed(Resolve(field, table, set p | p in decl.typeParams).value,
                           ParamSubst(decl.typeParams, args), table);
    }
  }
}
