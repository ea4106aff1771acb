/** The files a context's Worker ships, and the conflicts between their fixed paths (`closure`,
    `deployed_assets`, the first half of `phase_asset_routes`). */
module Assets {
  import opened Types
  import opened TextOrder

  type Edges = map<string, seq<string>>

  // ----- reachable units -----

  predicate Step(x: string, y: string, edges: seq<Edges>) {
    exists i | 0 <= i < |edges| :: x in edges[i] && y in edges[i][x]
  }

  predicate IsPath(path: seq<string>, edges: seq<Edges>) {
    path != [] && forall k | 0 <= k < |path| - 1 :: Step(path[k], path[k + 1], edges)
  }

  ghost predicate Reachable(start: string, unit: string, edges: seq<Edges>) {
    exists path :: IsPath(path, edges) && path[0] == start && path[|path| - 1] == unit
  }

  lemma ReachableStep(start: string, x: string, y: string, edges: seq<Edges>)
    requires Reachable(start, x, edges) && Step(x, y, edges)
    ensures Reachable(start, y, edges)
  {
    var path :| IsPath(path, edges) && path[0] == start && path[|path| - 1] == x;
    assert IsPath(path + [y], edges);
  }

  /** A set that contains the start of a path and everything one step away contains its end. */
  lemma {:induction false} ClosedUnderPaths(units: set<string>, path: seq<string>, edges: seq<Edges>)
    requires IsPath(path, edges) && path[0] in units
    requires forall x, y | x in units && Step(x, y, edges) :: y in units
    ensures path[|path| - 1] in units
  {
    if |path| > 1 {
      assert Step(path[0], path[1], edges);
      forall k | 0 <= k < |path| - 2 ensures Step(path[1..][k], path[1..][k + 1], edges) {
        assert Step(path[k + 1], path[k + 1 + 1], edges);
      }
      ClosedUnderPaths(units, path[1..], edges);
    }
  }

  /** Everything the edges mention. */
  ghost function Mentioned(start: string, edges: seq<Edges>): set<string> {
    {start} + set i, x, k | 0 <= i < |edges| && x in edges[i] && 0 <= k < |edges[i][x]| :: edges[i][x][k]
  }

  method Successors(unit: string, edges: seq<Edges>) returns (next: seq<string>)
    ensures forall y :: y in next <==> Step(unit, y, edges)
  {
    next := [];
    for i := 0 to |edges|
      invariant forall y :: y in next <==> exists j | 0 <= j < i :: unit in edges[j] && y in edges[j][unit]
    {
      if unit in edges[i] {
        next := next + edges[i][unit];
      }
    }
  }

  /** `closure`: the worklist finds exactly the units reachable over all the edges. */
  method Closure(start: string, edges: seq<Edges>) returns (seen: set<string>)
    ensures forall unit :: unit in seen <==> Reachable(start, unit, edges)
  {
    seen := {};
    var stack := [start];
    assert IsPath([start], edges);
    while stack != []
      invariant start in seen || start in stack
      invariant forall x | x in seen || x in stack :: Reachable(start, x, edges) && x in Mentioned(start, edges)
      invariant forall x, y | x in seen && Step(x, y, edges) :: y in seen || y in stack
      decreases Mentioned(start, edges) - seen, |stack|
    {
      var unit := stack[|stack| - 1];
      var rest := stack[..|stack| - 1];
      assert forall x :: x in stack <==> x in rest || x == unit;
      if unit in seen {
        stack := rest;
      } else {
        assert unit in Mentioned(start, edges) - seen;
        var next := Successors(unit, edges);
        forall y | y in next ensures Reachable(start, y, edges) && y in Mentioned(start, edges) {
          ReachableStep(start, unit, y, edges);
          var i :| 0 <= i < |edges| && unit in edges[i] && y in edges[i][unit];
          var k :| 0 <= k < |edges[i][unit]| && edges[i][unit][k] == y;
        }
        seen := seen + {unit};
        stack := rest + next;
      }
    }
    forall unit | Reachable(start, unit, edges) ensures unit in seen {
      var path :| IsPath(path, edges) && path[0] == start && path[|path| - 1] == unit;
      ClosedUnderPaths(seen, path, edges);
    }
  }

  // ----- deployed assets -----

  /** An asset declaration: its normalised source path, and its fixed URL path if it has one. */
  datatype Asset = Asset(source: string, at: Option<string>)

  function AssetKey(a: Asset): string {
    match a.at case Some(at) => a.source + " at " + at case None => a.source
  }

  type Units = map<string, set<Asset>>

  /** The Worker for `context` ships `a` of `unit`: hashed assets of everything it reaches over `uses` and
      `consumes`, fixed ones of what it reaches over `uses` alone. */
  ghost predicate Ships(unit: string, a: Asset, context: string, uses: Edges, consumes: Edges, units: Units) {
    unit in units && a in units[unit] && Reachable(context, unit, [uses, consumes]) &&
    (a.at.Some? ==> Reachable(context, unit, [uses]))
  }

  /** An asset and the unit that declares it. */
  type Declared = (string, Asset)

  predicate ServedAt(a: Asset, path: string, served: map<string, string>) {
    AssetKey(a) in served && served[AssetKey(a)] == path
  }

  /** What has been put out once the assets in `done` have been looked at: every one that is served, and at each path
      the source of one whose unit comes last in the order of names. */
  ghost predicate IsOutput(out: map<string, string>, done: iset<Declared>, served: map<string, string>) {
    (forall d | d in done && AssetKey(d.1) in served :: served[AssetKey(d.1)] in out) &&
    forall path | path in out :: exists d :: d in done && IsLast(d, path, done, served) && out[path] == d.1.source
  }

  ghost predicate IsLast(d: Declared, path: string, done: iset<Declared>, served: map<string, string>) {
    ServedAt(d.1, path, served) && forall e | e in done && ServedAt(e.1, path, served) :: Leq(e.0, d.0)
  }

  lemma OutputMore(out: map<string, string>, done: iset<Declared>, served: map<string, string>, d: Declared)
    requires IsOutput(out, done, served) && forall e | e in done :: Leq(e.0, d.0)
    ensures AssetKey(d.1) !in served ==> IsOutput(out, done + iset{d}, served)
    ensures AssetKey(d.1) in served ==> IsOutput(out[served[AssetKey(d.1)] := d.1.source], done + iset{d}, served)
  {
    var more := if AssetKey(d.1) in served then out[served[AssetKey(d.1)] := d.1.source] else out;
    LeqTotal(d.0, d.0);
    forall path | path in more
      ensures exists e :: e in done + iset{d} && IsLast(e, path, done + iset{d}, served) && more[path] == e.1.source
    {
      if ServedAt(d.1, path, served) {
        assert d in done + iset{d} && IsLast(d, path, done + iset{d}, served);
      } else {
        var e :| e in done && IsLast(e, path, done, served) && out[path] == e.1.source;
        assert e in done + iset{d} && IsLast(e, path, done + iset{d}, served);
      }
    }
  }

  /** One unit's declarations, in any order. */
  method AddUnit(before: map<string, string>, unit: string, assets: set<Asset>, fixedToo: bool,
                 served: map<string, string>, ghost done: iset<Declared>) returns (out: map<string, string>)
    requires IsOutput(before, done, served) && forall e | e in done :: Leq(e.0, unit)
    ensures IsOutput(out, done + (iset d: Declared | d.0 == unit && d.1 in assets && (d.1.at.Some? ==> fixedToo)), served)
  {
    hide IsOutput;
    out := before;
    var rest := assets;
    ghost var added: iset<Declared> := iset{};
    assert done + added == done;
    LeqTotal(unit, unit);
    while rest != {}
      invariant rest <= assets
      invariant added == (iset d: Declared | d.0 == unit && d.1 in assets - rest && (d.1.at.Some? ==> fixedToo))
      invariant IsOutput(out, done + added, served)
      decreases rest
    {
      var a :| a in rest;
      rest := rest - {a};
      if a.at.None? || fixedToo {
        OutputMore(out, done + added, served, (unit, a));
        assert done + added + iset{(unit, a)} == done + (added + iset{(unit, a)});
        if AssetKey(a) in served {
          out := out[served[AssetKey(a)] := a.source];
        }
        added := added + iset{(unit, a)};
      }
    }
    assert added == (iset d: Declared | d.0 == unit && d.1 in assets && (d.1.at.Some? ==> fixedToo));
  }

  /** `deployed_assets`: every asset the Worker ships and nothing else, keyed by served path. The units are visited in
      the order of their names, so of two assets served at one path that of the later unit wins. */
  method DeployedAssets(context: string, uses: Edges, consumes: Edges, units: Units, served: map<string, string>)
    returns (out: map<string, string>)
    ensures IsOutput(out, (iset d: Declared | Ships(d.0, d.1, context, uses, consumes, units)), served)
  {
    hide IsOutput;
    var hashedUnits := Closure(context, [uses, consumes]);
    var fixedUnits := Closure(context, [uses]);
    out := map[];
    var rest := hashedUnits;
    ghost var done: iset<Declared> := iset{};
    assert IsOutput(out, done, served) by { NoOutput(served); }
    while rest != {}
      invariant rest <= hashedUnits
      invariant forall u, v | u in hashedUnits - rest && v in rest :: Leq(u, v)
      invariant done == (iset d: Declared | d.0 in hashedUnits - rest && d.0 in units && d.1 in units[d.0] &&
                                            (d.1.at.Some? ==> d.0 in fixedUnits))
      invariant IsOutput(out, done, served)
      decreases rest
    {
      ghost var first := LeastExists(rest);
      var unit :| unit in rest && forall other | other in rest :: Leq(unit, other);
      rest := rest - {unit};
      if unit in units {
        out := AddUnit(out, unit, units[unit], unit in fixedUnits, served, done);
        done := done + (iset d: Declared | d.0 == unit && d.1 in units[unit] && (d.1.at.Some? ==> unit in fixedUnits));
      }
    }
    assert done == (iset d: Declared | Ships(d.0, d.1, context, uses, consumes, units));
  }

  lemma NoOutput(served: map<string, string>)
    ensures IsOutput(map[], iset{}, served)
  {
  }

  // ----- fixed paths -----

  /** A declaration that passed the path checks: where it is served and from which file. */
  datatype Fixed = Fixed(at: string, source: string)

  /** `a` would have to be a folder for `b` to be a file. */
  predicate FolderOf(a: string, b: string) {
    a + "/" <= b
  }

  /** The parts of a path between its slashes. */
  function Components(path: string): (parts: seq<string>)
    ensures parts != []
  {
    if path == "" then [""]
    else
      var rest := Components(path[1..]);
      if path[0] == '/' then [""] + rest else [[path[0]] + rest[0]] + rest[1..]
  }

  /** Every component of `xs` comes first in `ys`, and more follow. */
  predicate ProperPrefix(xs: seq<string>, ys: seq<string>) {
    |xs| < |ys| && forall i | 0 <= i < |xs| :: xs[i] == ys[i]
  }

  /** One path is a folder of another exactly when its components come first in the other's: `/logo` is a folder of
      `/logo/icon.png` and none of `/logo2`. */
  lemma {:induction false} FolderOfComponents(a: string, b: string)
    ensures FolderOf(a, b) <==> ProperPrefix(Components(a), Components(b))
  {
    if a != "" && b != "" {
      FolderOfComponents(a[1..], b[1..]);
      FolderOfTail(a, b);
      ComponentsTail(a, b);
    } else {
      FolderOfEnd(a, b);
    }
  }

  lemma FolderOfTail(a: string, b: string)
    requires a != "" && b != ""
    ensures FolderOf(a, b) <==> a[0] == b[0] && FolderOf(a[1..], b[1..])
  {
    assert (a + "/")[0] == a[0] && (a + "/")[1..] == a[1..] + "/";
    if a[0] == b[0] && FolderOf(a[1..], b[1..]) {
      assert b[1..][..|a|] == a[1..] + "/";
      assert b[..|a| + 1] == a + "/";
    }
  }

  lemma ComponentsTail(a: string, b: string)
    requires a != "" && b != ""
    ensures ProperPrefix(Components(a), Components(b)) <==> a[0] == b[0] && ProperPrefix(Components(a[1..]), Components(b[1..]))
  {
    var xs, ys := Components(a[1..]), Components(b[1..]);
    if a[0] == b[0] && ProperPrefix(xs, ys) {
      forall i | 0 <= i < |Components(a)| ensures Components(a)[i] == Components(b)[i] {}
    }
    if ProperPrefix(Components(a), Components(b)) {
      assert Components(a)[0] == Components(b)[0];
      if a[0] == '/' {
        forall i | 0 <= i < |xs| ensures xs[i] == ys[i] { assert Components(a)[i + 1] == Components(b)[i + 1]; }
      } else {
        assert xs[0] == Components(a)[0][1..] && ys[0] == Components(b)[0][1..];
        forall i | 0 <= i < |xs| ensures xs[i] == ys[i] { assert Components(a)[i] == Components(b)[i]; }
      }
    }
  }

  lemma FolderOfEnd(a: string, b: string)
    requires a == "" || b == ""
    ensures FolderOf(a, b) <==> ProperPrefix(Components(a), Components(b))
  {
    if a == "" {
      assert Components(a) == [""] && a + "/" == "/";
      if b != "" && b[0] == '/' { assert Components(b)[0] == ""; }
    }
  }

  predicate Nested(a: string, b: string) {
    FolderOf(a, b) || FolderOf(b, a)
  }

  /** Two declarations that one Worker cannot both serve. */
  predicate Conflict(x: Fixed, y: Fixed) {
    Nested(x.at, y.at) || (x.at == y.at && x.source != y.source)
  }

  /** No path served is a folder of another. */
  predicate FolderFree(served: map<string, string>) {
    forall a, b | a in served && b in served :: !FolderOf(a, b)
  }

  /** The loop over one context's fixed paths: which declarations it reports, and what is served. */
  method FixedPaths(decls: seq<Fixed>) returns (served: map<string, string>, reported: set<nat>)
    ensures FolderFree(served)
    ensures forall a | a in served :: Fixed(a, served[a]) in decls
    ensures forall i | i in reported :: i < |decls| && exists j | 0 <= j < i :: Conflict(decls[j], decls[i])
    ensures forall i | 0 <= i < |decls| && i !in reported ::
      decls[i].at in served && served[decls[i].at] == decls[i].source
  {
    served, reported := map[], {};
    for i := 0 to |decls|
      invariant FolderFree(served)
      invariant forall a | a in served :: exists j | 0 <= j < i :: decls[j] == Fixed(a, served[a])
      invariant forall k | k in reported :: k < i && exists j | 0 <= j < k :: Conflict(decls[j], decls[k])
      invariant forall k | 0 <= k < i && k !in reported :: decls[k].at in served && served[decls[k].at] == decls[k].source
    {
      var d := decls[i];
      if other :| other in served && Nested(other, d.at) {
        assert Conflict(Fixed(other, served[other]), d);
        reported := reported + {i};
      } else if d.at in served {
        if served[d.at] != d.source {
          assert Conflict(Fixed(d.at, served[d.at]), d);
          reported := reported + {i};
        }
      } else {
        served := served[d.at := d.source];
      }
    }
  }

  ghost predicate SomeConflict(decls: seq<Fixed>) {
    exists i, j :: 0 <= i < |decls| && 0 <= j < |decls| && Conflict(decls[i], decls[j])
  }

  /** The loop reports a conflict exactly when two declarations of the context conflict. */
  method ReportsConflict(decls: seq<Fixed>) returns (found: bool)
    ensures found == SomeConflict(decls)
  {
    var served, reported := FixedPaths(decls);
    found := reported != {};
    if found {
      ghost var i :| i in reported;
      ghost var j :| 0 <= j < i && Conflict(decls[j], decls[i]);
    } else {
      forall i, j | 0 <= i < |decls| && 0 <= j < |decls| ensures !Conflict(decls[i], decls[j]) {
        assert i !in reported && j !in reported;
      }
    }
  }

  /** So whether one is reported does not depend on the order the declarations are visited in. */
  lemma ConflictOrderFree(decls: seq<Fixed>, reordered: seq<Fixed>)
    requires forall d :: d in decls <==> d in reordered
    ensures SomeConflict(decls) <==> SomeConflict(reordered)
  {
    if SomeConflict(decls) {
      var i, j :| 0 <= i < |decls| && 0 <= j < |decls| && Conflict(decls[i], decls[j]);
      assert decls[i] in reordered && decls[j] in reordered;
    }
    if SomeConflict(reordered) {
      var i, j :| 0 <= i < |reordered| && 0 <= j < |reordered| && Conflict(reordered[i], reordered[j]);
      assert reordered[i] in decls && reordered[j] in decls;
    }
  }
}
