/** Validating a rename against the project index (`ProjectIndex::equals_modulo_rename`). */
module Rename {
  import opened Types

  /** The kinds of symbol that own members, the kinds of member, and all others. */
  datatype Kind =
    | TypeSymbol | CapabilitySymbol | AgentSymbol
    | FieldSymbol | MethodSymbol | OperationSymbol | HandlerSymbol
    | OtherSymbol(kind: nat)

  datatype Key = Key(unit: string, kind: Kind, name: string)

  datatype Site = Site(path: string, start: nat, end: nat)

  datatype Entry = Entry(def: Option<Site>, refs: seq<Site>)

  type Symbols = map<Key, Entry>

  /** The key a symbol should have after the rename. */
  function Expected(k: Key, from: Key, toName: string): Key {
    if k == from then k.(name := toName) else k
  }

  function RemapDef(def: Option<Site>, remap: Site -> Site): Option<Site> {
    match def case Some(s) => Some(remap(s)) case None => None
  }

  function RemapRefs(refs: seq<Site>, remap: Site -> Site): seq<Site> {
    seq(|refs|, i requires 0 <= i < |refs| => remap(refs[i]))
  }

  /** One symbol's sites after the rename; two sorted lists are equal when they hold the same sites equally often. */
  predicate SameSites(before: Entry, after: Entry, remap: Site -> Site) {
    RemapDef(before.def, remap) == after.def && multiset(RemapRefs(before.refs, remap)) == multiset(after.refs)
  }

  predicate Accepts(pre: Symbols, post: Symbols, from: Key, toName: string, remap: Site -> Site) {
    |pre| == |post| &&
    forall k | k in pre :: Expected(k, from, toName) in post && SameSites(pre[k], post[Expected(k, from, toName)], remap)
  }

  /** The loop over the symbols, in any order. */
  method EqualsModuloRename(pre: Symbols, post: Symbols, from: Key, toName: string, remap: Site -> Site) returns (ok: bool)
    ensures ok == Accepts(pre, post, from, toName, remap)
  {
    if |pre| != |post| { return false; }
    var rest := pre.Keys;
    while rest != {}
      invariant rest <= pre.Keys
      invariant forall k | k in pre.Keys - rest ::
        Expected(k, from, toName) in post && SameSites(pre[k], post[Expected(k, from, toName)], remap)
      decreases rest
    {
      var k :| k in rest;
      var expected := Expected(k, from, toName);
      if expected !in post || !SameSites(pre[k], post[expected], remap) { return false; }
      rest := rest - {k};
    }
    return true;
  }

  ghost predicate Injective(remap: Site -> Site) {
    forall s, t :: remap(s) == remap(t) ==> s == t
  }

  /** Every symbol is defined somewhere, no two at one site. */
  ghost predicate DistinctDefs(symbols: Symbols) {
    (forall k | k in symbols :: symbols[k].def.Some?) &&
    forall j, k | j in symbols && k in symbols && symbols[j].def == symbols[k].def :: j == k
  }

  function ExpectedKeys(keys: set<Key>, from: Key, toName: string): set<Key> {
    set k | k in keys :: Expected(k, from, toName)
  }

  lemma {:induction false} ImageSize(keys: set<Key>, from: Key, toName: string)
    requires forall j, k | j in keys && k in keys && Expected(j, from, toName) == Expected(k, from, toName) :: j == k
    ensures |ExpectedKeys(keys, from, toName)| == |keys|
  {
    if keys != {} {
      var k :| k in keys;
      var rest := keys - {k};
      ImageSize(rest, from, toName);
      assert ExpectedKeys(keys, from, toName) == ExpectedKeys(rest, from, toName) + {Expected(k, from, toName)};
      assert Expected(k, from, toName) !in ExpectedKeys(rest, from, toName);
    }
  }

  lemma {:induction false} SameSize(small: set<Key>, large: set<Key>)
    requires small <= large && |small| == |large|
    ensures small == large
  {
    if small != large {
      var k :| k in large && k !in small;
      SubsetSize(small, large - {k});
    }
  }

  lemma {:induction false} SubsetSize(small: set<Key>, large: set<Key>)
    requires small <= large
    ensures |small| <= |large|
  {
    if small != {} {
      var k :| k in small;
      SubsetSize(small - {k}, large - {k});
    }
  }

  lemma {:induction false} RemappedCount(refs: seq<Site>, remap: Site -> Site, s: Site)
    requires Injective(remap)
    ensures multiset(RemapRefs(refs, remap))[remap(s)] == multiset(refs)[s]
  {
    if refs != [] {
      RemappedCount(refs[1..], remap, s);
      assert refs == [refs[0]] + refs[1..];
      assert RemapRefs(refs, remap) == [remap(refs[0])] + RemapRefs(refs[1..], remap);
    }
  }

  lemma RemappedIn(refs: seq<Site>, after: seq<Site>, remap: Site -> Site, s: Site)
    requires Injective(remap) && multiset(RemapRefs(refs, remap)) == multiset(after)
    ensures multiset(refs)[s] == multiset(after)[remap(s)] && (s in refs <==> remap(s) in after)
  {
    RemappedCount(refs, remap, s);
    assert s in refs <==> multiset(refs)[s] > 0;
    assert remap(s) in after <==> multiset(after)[remap(s)] > 0;
  }

  /** The new name was another symbol's. */
  predicate NameTaken(pre: Symbols, from: Key, toName: string) {
    from in pre && from.(name := toName) in pre && toName != from.name
  }

  lemma ExpectedInjective(pre: Symbols, from: Key, toName: string, j: Key, k: Key)
    requires j in pre && k in pre && !NameTaken(pre, from, toName) && Expected(j, from, toName) == Expected(k, from, toName)
    ensures j == k
  {
  }

  lemma FreeNameInjective(pre: Symbols, from: Key, toName: string)
    requires !NameTaken(pre, from, toName)
    ensures forall j, k | j in pre && k in pre && Expected(j, from, toName) == Expected(k, from, toName) :: j == k
    ensures |ExpectedKeys(pre.Keys, from, toName)| == |pre|
  {
    forall j, k | j in pre && k in pre && Expected(j, from, toName) == Expected(k, from, toName) ensures j == k {
      ExpectedInjective(pre, from, toName, j, k);
    }
    ImageSize(pre.Keys, from, toName);
  }

  lemma TakenNameMerges(pre: Symbols, from: Key, toName: string)
    requires NameTaken(pre, from, toName)
    ensures var taken := from.(name := toName); from in pre && taken in pre && from != taken && Expected(from, from, toName) == Expected(taken, from, toName)
    ensures |ExpectedKeys(pre.Keys, from, toName)| < |pre|
  {
    var image := ExpectedKeys(pre.Keys, from, toName);
    forall k | k in image ensures k in pre.Keys - {from} {}
    SubsetSize(image, pre.Keys - {from});
  }

  lemma ExpectedInPost(pre: Symbols, post: Symbols, from: Key, toName: string, remap: Site -> Site)
    requires Accepts(pre, post, from, toName, remap)
    ensures ExpectedKeys(pre.Keys, from, toName) <= post.Keys && |pre| == |post|
  {
  }

  /** An accepted rename is a bijection between the two symbol tables exactly when the new name was free. */
  lemma AcceptedIsBijection(pre: Symbols, post: Symbols, from: Key, toName: string, remap: Site -> Site)
    requires Accepts(pre, post, from, toName, remap)
    ensures ExpectedKeys(pre.Keys, from, toName) == post.Keys <==> !NameTaken(pre, from, toName)
    ensures (forall j, k | j in pre && k in pre && Expected(j, from, toName) == Expected(k, from, toName) :: j == k) <==>
            !NameTaken(pre, from, toName)
  {
    hide Accepts, ExpectedKeys, Expected, NameTaken;
    ExpectedInPost(pre, post, from, toName, remap);
    if NameTaken(pre, from, toName) {
      TakenNameMerges(pre, from, toName);
    } else {
      FreeNameInjective(pre, from, toName);
      SameSize(ExpectedKeys(pre.Keys, from, toName), post.Keys);
    }
  }

  /** After an accepted rename every definition and every reference belongs to its own symbol. */
  lemma AcceptedKeepsSites(pre: Symbols, post: Symbols, from: Key, toName: string, remap: Site -> Site, k: Key, s: Site)
    requires Accepts(pre, post, from, toName, remap) && Injective(remap) && k in pre
    ensures s in pre[k].refs <==> remap(s) in post[Expected(k, from, toName)].refs
    ensures multiset(pre[k].refs)[s] == multiset(post[Expected(k, from, toName)].refs)[remap(s)]
    ensures pre[k].def == Some(s) <==> post[Expected(k, from, toName)].def == Some(remap(s))
  {
    RemappedIn(pre[k].refs, post[Expected(k, from, toName)].refs, remap, s);
  }

  /** Two symbols that should end up under one key have one definition between them: over an index in which every
      symbol has its own definition site, as every built index is, a rename onto a taken name is never accepted. */
  lemma TakenNameRejected(pre: Symbols, post: Symbols, from: Key, toName: string, remap: Site -> Site)
    requires Injective(remap) && DistinctDefs(pre) && NameTaken(pre, from, toName)
    ensures !Accepts(pre, post, from, toName, remap)
  {
    if Accepts(pre, post, from, toName, remap) { OneDefinition(pre, post, from, toName, remap); }
  }

  lemma OneDefinition(pre: Symbols, post: Symbols, from: Key, toName: string, remap: Site -> Site)
    requires Accepts(pre, post, from, toName, remap) && Injective(remap) && NameTaken(pre, from, toName)
    ensures pre[from].def == pre[from.(name := toName)].def
  {
    assert RemapDef(pre[from].def, remap) == RemapDef(pre[from.(name := toName)].def, remap);
  }

  /** So over such an index every accepted rename is a bijection. */
  lemma AcceptedOverDistinctDefs(pre: Symbols, post: Symbols, from: Key, toName: string, remap: Site -> Site)
    requires Accepts(pre, post, from, toName, remap) && Injective(remap) && DistinctDefs(pre)
    ensures ExpectedKeys(pre.Keys, from, toName) == post.Keys && !NameTaken(pre, from, toName)
  {
    if NameTaken(pre, from, toName) { TakenNameRejected(pre, post, from, toName, remap); }
    AcceptedIsBijection(pre, post, from, toName, remap);
  }

  /** Without distinct definition sites a rename onto another symbol's name can be accepted, and one of the two
      symbols is lost: the old index has two symbols, the new one an unrelated third in place of the second. */
  lemma SharedDefinitionLosesSymbol(site: Site, elsewhere: Site)
    requires site != elsewhere
    ensures var from, taken, other := Key("u", TypeSymbol, "a"), Key("u", TypeSymbol, "b"), Key("u", TypeSymbol, "c");
            var pre := map[from := Entry(Some(site), []), taken := Entry(Some(site), [])];
            var post := map[taken := Entry(Some(site), []), other := Entry(Some(elsewhere), [])];
            Accepts(pre, post, from, "b", s => s) && ExpectedKeys(pre.Keys, from, "b") != post.Keys
  {
    var from, taken, other := Key("u", TypeSymbol, "a"), Key("u", TypeSymbol, "b"), Key("u", TypeSymbol, "c");
    var pre := map[from := Entry(Some(site), []), taken := Entry(Some(site), [])];
    var post := map[taken := Entry(Some(site), []), other := Entry(Some(elsewhere), [])];
    assert "a" != "b" && "b" != "c";
    assert pre.Keys == {from, taken} && post.Keys == {taken, other};
    assert RemapRefs([], s => s) == [];
    AcceptedIsBijection(pre, post, from, "b", s => s);
  }

  // ----- which honest renames are accepted -----

  /** The kind of the symbols that own members of this kind. A member's name is its owner's, a point and its own. */
  function OwnerKind(k: Kind): Option<Kind> {
    match k
    case FieldSymbol => Some(TypeSymbol)
    case MethodSymbol => Some(TypeSymbol)
    case OperationSymbol => Some(CapabilitySymbol)
    case HandlerSymbol => Some(AgentSymbol)
    case _ => None
  }

  predicate Member(k: Key, owner: Key) {
    k.unit == owner.unit && OwnerKind(k.kind) == Some(owner.kind) && owner.name + "." <= k.name
  }

  /** Where the symbol is found once the renamed declaration has its new name everywhere. */
  function Carried(k: Key, from: Key, toName: string): Key {
    if k == from then k.(name := toName)
    else if Member(k, from) then k.(name := toName + k.name[|from.name|..])
    else k
  }

  /** The new index is the old one with the renamed symbol, and its members, under their new names. */
  ghost predicate Honest(pre: Symbols, post: Symbols, from: Key, toName: string, remap: Site -> Site) {
    (forall j, k | j in pre && k in pre && Carried(j, from, toName) == Carried(k, from, toName) :: j == k) &&
    post.Keys == (set k | k in pre :: Carried(k, from, toName)) &&
    forall k | k in pre :: SameSites(pre[k], post[Carried(k, from, toName)], remap)
  }

  lemma {:induction false} CarriedSize(keys: set<Key>, from: Key, toName: string)
    requires forall j, k | j in keys && k in keys && Carried(j, from, toName) == Carried(k, from, toName) :: j == k
    ensures |set k | k in keys :: Carried(k, from, toName)| == |keys|
  {
    if keys != {} {
      var k :| k in keys;
      var rest := keys - {k};
      CarriedSize(rest, from, toName);
      assert (set j | j in keys :: Carried(j, from, toName)) ==
             (set j | j in rest :: Carried(j, from, toName)) + {Carried(k, from, toName)};
    }
  }

  lemma FirstPoint(m: string, s: string)
    requires '.' !in m && m + "." <= s
    ensures s[|m|] == '.' && s[..|m|] == m && forall i | 0 <= i < |m| :: s[i] != '.'
  {
    assert (m + ".")[|m|] == '.';
    forall i | 0 <= i < |m| ensures s[i] != '.' { assert m[i] == s[i]; }
  }

  /** A text has one beginning before its first point. */
  lemma PrefixBeforePoint(m: string, n: string, s: string)
    requires '.' !in m && '.' !in n && m + "." <= s && n + "." <= s
    ensures m == n
  {
    FirstPoint(m, s);
    FirstPoint(n, s);
  }

  /** No symbol is carried to where a member of the renamed symbol was. */
  lemma MemberGone(j: Key, k: Key, from: Key, toName: string)
    requires Member(k, from) && toName != from.name && '.' !in toName && '.' !in from.name
    ensures Carried(j, from, toName) != k
  {
    if j != from && Member(j, from) {
      var carried := Carried(j, from, toName).name;
      assert carried == toName + j.name[|from.name|..] && j.name[|from.name|] == '.';
      assert carried[..|toName| + 1] == toName + ".";
      if Carried(j, from, toName) == k { PrefixBeforePoint(toName, from.name, k.name); }
    }
  }

  /** A rename that only renames is accepted exactly when the renamed symbol owns no members: a record type with
      fields, a type with methods, a capability with operations or an agent with handlers cannot be renamed. */
  lemma HonestAccepted(pre: Symbols, post: Symbols, from: Key, toName: string, remap: Site -> Site)
    requires Honest(pre, post, from, toName, remap) && from in pre && toName != from.name
    requires from.kind in {TypeSymbol, CapabilitySymbol, AgentSymbol} ==> '.' !in toName && '.' !in from.name
    ensures Accepts(pre, post, from, toName, remap) <==> forall k | k in pre :: !Member(k, from)
  {
    if k :| k in pre && Member(k, from) {
      MemberMissing(pre, post, from, toName, remap, k);
    } else {
      CarriedSize(pre.Keys, from, toName);
      forall k | k in pre ensures Carried(k, from, toName) == Expected(k, from, toName) {}
    }
  }

  lemma MemberMissing(pre: Symbols, post: Symbols, from: Key, toName: string, remap: Site -> Site, k: Key)
    requires Honest(pre, post, from, toName, remap) && from in pre && toName != from.name
    requires k in pre && Member(k, from) && '.' !in toName && '.' !in from.name
    ensures !Accepts(pre, post, from, toName, remap)
  {
    forall j | j in pre ensures Carried(j, from, toName) != k { MemberGone(j, k, from, toName); }
    assert Expected(k, from, toName) == k && k !in post;
  }

  // ----- building the index -----

  /** A reference that qualification has resolved to a key. */
  datatype Reference = Reference(key: Key, site: Site)

  /** The sites that count as references to a symbol: not its definition's name, and each site once. */
  function RefsTo(refs: seq<Reference>, k: Key, def: Site): seq<Site> {
    if refs == [] then []
    else
      var before, last := RefsTo(refs[..|refs| - 1], k, def), refs[|refs| - 1];
      if last.key == k && last.site != def && last.site !in before then before + [last.site] else before
  }

  function Built(defs: map<Key, Site>, refs: seq<Reference>): Symbols {
    map k | k in defs :: Entry(Some(defs[k]), RefsTo(refs, k, defs[k]))
  }

  /** A site is filed under a symbol exactly when some reference to the symbol stands there and it is not the symbol's
      definition; no site is filed twice. */
  lemma {:induction false} RefsToExact(refs: seq<Reference>, k: Key, def: Site)
    ensures forall s :: s in RefsTo(refs, k, def) <==> Reference(k, s) in refs && s != def
    ensures forall i, j | 0 <= i < j < |RefsTo(refs, k, def)| :: RefsTo(refs, k, def)[i] != RefsTo(refs, k, def)[j]
  {
    if refs != [] {
      var before, last := refs[..|refs| - 1], refs[|refs| - 1];
      RefsToExact(before, k, def);
      assert refs == before + [last];
    }
  }

  class IndexBuilder {
    var defs: map<Key, Site>

    constructor ()
      ensures defs == map[]
    {
      defs := map[];
    }

    /** `add_def`, `add_leaf_def`: a later definition of a symbol replaces an earlier one. */
    method AddDef(k: Key, site: Site)
      modifies this
      ensures defs == old(defs)[k := site]
    {
      defs := defs[k := site];
    }

    /** `build`: references to symbols without a definition are dropped. */
    method Build(refs: seq<Reference>) returns (symbols: Symbols)
      ensures symbols == Built(defs, refs)
    {
      symbols := map k | k in defs :: Entry(Some(defs[k]), []);
      for i := 0 to |refs|
        invariant symbols == Built(defs, refs[..i])
      {
        var k, site := refs[i].key, refs[i].site;
        assert refs[..i + 1][..i] == refs[..i];
        if k in defs && site != defs[k] && site !in symbols[k].refs {
          symbols := symbols[k := symbols[k].(refs := symbols[k].refs + [site])];
        }
      }
      assert refs[..|refs|] == refs;
    }
  }

  /** The walk over the declarations: every definition is added at its own name's site. */
  function DefsOf(added: seq<Reference>): map<Key, Site> {
    if added == [] then map[]
    else DefsOf(added[..|added| - 1])[added[|added| - 1].key := added[|added| - 1].site]
  }

  lemma {:induction false} DefsAdded(added: seq<Reference>, k: Key)
    requires k in DefsOf(added)
    ensures exists i | 0 <= i < |added| :: added[i] == Reference(k, DefsOf(added)[k])
  {
    var last := |added| - 1;
    if added[last].key != k {
      DefsAdded(added[..last], k);
      var i :| 0 <= i < last && added[..last][i] == Reference(k, DefsOf(added)[k]);
      assert added[i] == Reference(k, DefsOf(added)[k]);
    } else {
      assert added[last] == Reference(k, DefsOf(added)[k]);
    }
  }

  /** Declarations that stand at different places have different definition sites in the index. */
  lemma BuiltDistinct(added: seq<Reference>, refs: seq<Reference>)
    requires forall i, j | 0 <= i < j < |added| :: added[i].site != added[j].site
    ensures DistinctDefs(Built(DefsOf(added), refs))
  {
    var defs := DefsOf(added);
    forall j, k | j in defs && k in defs && defs[j] == defs[k] ensures j == k {
      DefsAdded(added, j);
      DefsAdded(added, k);
    }
  }
}
