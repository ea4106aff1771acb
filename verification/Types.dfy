/** The types of the checker: the resolved type `Ty`, the written type `TypeRef`, and the declarations
    a type table holds.

    The checker stores a resolved type as a node in a table of shared nodes; `Ty` is the tree such a node
    stands for. `Interner` proves that the two agree: equal ids and equal trees are the same thing.
    Types that differ only in a built-in constructor are grouped: `Wrap` for the built-ins with one inner
    type, `Pair` for those with two, `Atom` for those with none. */
module Types {

  datatype Option<+T> = None | Some(value: T)

  datatype BaseType = Int | String | Bool | Float | Duration | Instant | Bytes

  datatype NamedKind = RefinedKind(base: BaseType) | RecordKind | SumKind | OpaqueKind(base: BaseType)

  datatype Atom = QueueResult | BoundaryRejection | Asset | ValidationError | JsonError | Unit

  datatype Wrapper =
    | OptionOf | EffectOf | HttpResultOf | HttpOutcomeOf | ListOf | QueryOf | StreamOf | ConnectionOf

  datatype Pairing = ResultOf | MapOf

  datatype Ty =
    | Error
    | Base(base: BaseType)
    | Atom(atom: Atom)
    | Named(name: string, kind: NamedKind, args: seq<Ty>)
    | Wrap(wrapper: Wrapper, inner: Ty)
    | Pair(pairing: Pairing, first: Ty, second: Ty)
    | Fn(params: seq<Ty>, ret: Ty)
    | Actor(identity: Ty)
    | ActorSum(members: seq<(string, Ty)>)
    | Var(variable: string)

  /** A type as written in source. `HttpOutcomeOf` and `BoundaryRejection` have no spelling there. */
  datatype TypeRef =
    | BaseRef(base: BaseType)
    | AtomRef(atom: Atom)
    | NamedRef(name: string)
    | WrapRef(wrapper: Wrapper, inner: TypeRef)
    | PairRef(pairing: Pairing, first: TypeRef, second: TypeRef)
    | FnRef(params: seq<TypeRef>, ret: TypeRef)
    | HistoryRef(agent: TypeRef)
    | AppRef(name: string, args: seq<TypeRef>)

  datatype Pred =
    | Matches(pattern: string)
    | InRange(low: int, high: int)
    | InRangeF(lowF: real, highF: real)
    | MinLength(length: int)
    | MaxLength(length: int)
    | Length(length: int)
    | NonNegative
    | Positive
    | NonEmpty

  type Refinement = Option<seq<Pred>>

  datatype Field = Field(name: string, typ: TypeRef, refinement: Refinement)

  datatype PayloadField = PayloadField(name: string, typ: TypeRef)

  datatype Variant = Variant(name: string, payload: seq<PayloadField>)

  datatype Body =
    | Refined(base: BaseType, refinement: Refinement)
    | Opaque(base: BaseType, refinement: Refinement)
    | Record(fields: seq<Field>)
    | Sum(variants: seq<Variant>)

  /** `identity` stands for the allocation a declaration lives in and `span` for its place in its file. */
  datatype TypeDecl = TypeDecl(identity: nat, span: nat, name: string, typeParams: seq<string>, body: Body)

  type Table = map<string, TypeDecl>

  /** A declaration is filed under its own name, also when that name is a qualified key. */
  ghost predicate WellKeyed(table: Table) {
    forall n | n in table :: table[n].name == n
  }

  ghost predicate ParameterFree(table: Table) {
    forall n | n in table :: table[n].typeParams == []
  }

  function FindField(fields: seq<Field>, name: string): (f: Option<Field>)
    ensures f.Some? ==> f.value in fields && f.value.name == name
    ensures f.None? ==> forall i | 0 <= i < |fields| :: fields[i].name != name
  {
    if fields == [] then None
    else if fields[0].name == name then Some(fields[0])
    else FindField(fields[1..], name)
  }

  function FindVariant(variants: seq<Variant>, name: string): (v: Option<Variant>)
    ensures v.Some? ==> v.value in variants && v.value.name == name
    ensures v.None? ==> forall i | 0 <= i < |variants| :: variants[i].name != name
  {
    if variants == [] then None
    else if variants[0].name == name then Some(variants[0])
    else FindVariant(variants[1..], name)
  }

  function KindOf(body: Body): NamedKind {
    match body
    case Refined(b, _) => RefinedKind(b)
    case Opaque(b, _) => OpaqueKind(b)
    case Record(_) => RecordKind
    case Sum(_) => SumKind
  }

  /** The number of nodes of a type: a measure two types can share, for walks that swap them. */
  function Size(t: Ty): nat {
    match t
    case Named(_, _, args) => 1 + SizeAll(args)
    case Wrap(_, a) => 1 + Size(a)
    case Pair(_, a, b) => 1 + Size(a) + Size(b)
    case Fn(params, ret) => 1 + SizeAll(params) + Size(ret)
    case _ => 1
  }

  function SizeAll(ts: seq<Ty>): (n: nat)
    ensures forall i | 0 <= i < |ts| :: Size(ts[i]) <= n
  {
    if ts == [] then 0 else Size(ts[0]) + SizeAll(ts[1..])
  }

  /** Whether the already-diagnosed type occurs anywhere a walk over types can meet it. */
  predicate ErrorFree(t: Ty) {
    match t
    case Error => false
    case Named(_, _, args) => forall i | 0 <= i < |args| :: ErrorFree(args[i])
    case Wrap(_, a) => ErrorFree(a)
    case Pair(_, a, b) => ErrorFree(a) && ErrorFree(b)
    case Fn(params, ret) => (forall i | 0 <= i < |params| :: ErrorFree(params[i])) && ErrorFree(ret)
    case _ => true
  }
}
