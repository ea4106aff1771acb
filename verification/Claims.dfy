/** The claim predicates of refinement actors, and the search for claims that satisfy one
    (`claim_witnesses`, `claim_witness_js`). */
module Claims {
  import opened Types

  datatype Predicate =
    | HasClaim(name: string)
    | ClaimEquals(name: string, value: string)
    | And(left: Predicate, right: Predicate)
    | Or(left: Predicate, right: Predicate)
    | Not(inner: Predicate)

  /** What a name answers: a string, a number, or anything else, of which only the truth value matters. */
  datatype Json = Str(text: string) | Number(value: int) | Plain(truthy: bool)

  /** What an object of claims answers. A name it does not answer is `undefined`. */
  type ClaimValues = map<string, Json>

  function Lookup(c: ClaimValues, name: string): Option<Json> {
    if name in c then Some(c[name]) else None
  }

  predicate IsTruthy(v: Option<Json>) {
    match v
    case None => false
    case Some(Str(s)) => s != ""
    case Some(Number(n)) => n != 0
    case Some(Plain(t)) => t
  }

  /** What the JavaScript lowered from a predicate computes. */
  predicate Eval(p: Predicate, c: ClaimValues) {
    match p
    case HasClaim(n) => IsTruthy(Lookup(c, n))
    case ClaimEquals(n, v) => Lookup(c, n) == Some(Str(v))
    case And(l, r) => Eval(l, c) && Eval(r, c)
    case Or(l, r) => Eval(l, c) || Eval(r, c)
    case Not(q) => !Eval(q, c)
  }

  // ----- needs -----

  datatype Need = Equals(value: string) | Truthy(not: set<string>) | Falsy(not: set<string>) | NotEquals(not: set<string>)

  predicate Excluded(v: Option<Json>, not: set<string>) {
    v.Some? && v.value.Str? && v.value.text in not
  }

  /** The claim values a need stands for. */
  predicate Meets(n: Need, v: Option<Json>) {
    match n
    case Equals(s) => v == Some(Str(s))
    case Truthy(not) => IsTruthy(v) && !Excluded(v, not)
    case Falsy(not) => !IsTruthy(v) && !Excluded(v, not)
    case NotEquals(not) => !Excluded(v, not)
  }

  /** `merge_need`. */
  function MergeNeed(a: Need, b: Need): Option<Need> {
    match (a, b)
    case (Equals(x), Equals(y)) => if x == y then Some(a) else None
    case (Equals(v), Truthy(not)) => if v != "" && v !in not then Some(a) else None
    case (Truthy(not), Equals(v)) => if v != "" && v !in not then Some(b) else None
    case (Equals(v), Falsy(not)) => if v == "" && v !in not then Some(a) else None
    case (Falsy(not), Equals(v)) => if v == "" && v !in not then Some(b) else None
    case (Equals(v), NotEquals(not)) => if v !in not then Some(a) else None
    case (NotEquals(not), Equals(v)) => if v !in not then Some(b) else None
    case (Truthy(_), Falsy(_)) => None
    case (Falsy(_), Truthy(_)) => None
    case (Truthy(x), Truthy(y)) => Some(Truthy(x + y))
    case (Truthy(x), NotEquals(y)) => Some(Truthy(x + y))
    case (NotEquals(y), Truthy(x)) => Some(Truthy(x + y))
    case (Falsy(x), Falsy(y)) => Some(Falsy(x + y))
    case (Falsy(x), NotEquals(y)) => Some(Falsy(x + y))
    case (NotEquals(y), Falsy(x)) => Some(Falsy(x + y))
    case (NotEquals(x), NotEquals(y)) => Some(NotEquals(x + y))
  }

  /** Merging is intersecting the sets of values, and fails exactly when they have none in common. */
  lemma MergeNeedExact(a: Need, b: Need)
    ensures forall v :: Meets(a, v) && Meets(b, v) <==> MergeNeed(a, b).Some? && Meets(MergeNeed(a, b).value, v)
    ensures MergeNeed(a, b).None? <==> forall v :: !(Meets(a, v) && Meets(b, v))
  {
    if MergeNeed(a, b).Some? {
      assert Meets(MergeNeed(a, b).value, Signed(MergeNeed(a, b).value));
    }
  }

  /** The value the test driver signs for a need, if any. */
  function Signed(n: Need): Option<Json> {
    match n
    case Equals(s) => Some(Str(s))
    case Truthy(_) => Some(Plain(true))
    case Falsy(_) => None
    case NotEquals(_) => None
  }

  lemma SignedMeets(n: Need)
    ensures Meets(n, Signed(n))
  {
  }

  // ----- claim sets -----

  type ClaimSet = map<string, Need>

  ghost predicate MeetsAll(s: ClaimSet, c: ClaimValues) {
    forall n | n in s :: Meets(s[n], Lookup(c, n))
  }

  predicate Agree(a: ClaimSet, b: ClaimSet) {
    forall n | n in a && n in b :: MergeNeed(a[n], b[n]).Some?
  }

  function MergeClaims(a: ClaimSet, b: ClaimSet): Option<ClaimSet> {
    if !Agree(a, b) then None
    else Some(map n | n in a.Keys + b.Keys ::
      if n in a && n in b then MergeNeed(a[n], b[n]).value else if n in a then a[n] else b[n])
  }

  /** `merge_claims`: the needs of `b` are merged one by one into a copy of `a`, in any order of names. */
  method MergeClaimSets(a: ClaimSet, b: ClaimSet) returns (r: Option<ClaimSet>)
    ensures r == MergeClaims(a, b)
  {
    var out := a;
    var rest := b.Keys;
    while rest != {}
      invariant rest <= b.Keys
      invariant out.Keys == a.Keys + (b.Keys - rest)
      invariant forall n | n in a && n in b && n !in rest :: MergeNeed(a[n], b[n]).Some?
      invariant forall n | n in out ::
        out[n] == (if n in rest || n !in b then a[n] else if n in a then MergeNeed(a[n], b[n]).value else b[n])
      decreases rest
    {
      var name :| name in rest;
      if name in out {
        var merged := MergeNeed(out[name], b[name]);
        if merged.None? {
          assert out[name] == a[name] && !Agree(a, b);
          return None;
        }
        out := out[name := merged.value];
      } else {
        out := out[name := b[name]];
      }
      rest := rest - {name};
    }
    assert Agree(a, b) && out == MergeClaims(a, b).value;
    return Some(out);
  }

  /** Claims that meet every need of a claim set. */
  function Filled(s: ClaimSet): ClaimValues {
    map n | n in s :: FilledNeed(s[n])
  }

  function FilledNeed(n: Need): Json {
    match n
    case Equals(v) => Str(v)
    case Truthy(_) => Plain(true)
    case _ => Plain(false)
  }

  /** No claim set asks for too much. */
  lemma FilledMeets(s: ClaimSet)
    ensures MeetsAll(s, Filled(s))
  {
  }

  lemma MergeClaimsIs(a: ClaimSet, b: ClaimSet, c: ClaimValues)
    ensures MeetsAll(a, c) && MeetsAll(b, c) <==> MergeClaims(a, b).Some? && MeetsAll(MergeClaims(a, b).value, c)
  {
    hide MergeNeed, Meets, Lookup;
    forall n | n in a && n in b
      ensures Meets(a[n], Lookup(c, n)) && Meets(b[n], Lookup(c, n)) <==>
              MergeNeed(a[n], b[n]).Some? && Meets(MergeNeed(a[n], b[n]).value, Lookup(c, n))
    {
      MergeNeedExact(a[n], b[n]);
    }
    if MergeClaims(a, b).Some? {
      var m := MergeClaims(a, b).value;
      if MeetsAll(m, c) {
        assert forall n | n in a :: n in m;
        assert forall n | n in b :: n in m;
      }
    }
  }

  /** Merging claim sets intersects what they describe, and fails exactly when no claims are described by both. */
  lemma MergeClaimsExact(a: ClaimSet, b: ClaimSet)
    ensures forall c :: MeetsAll(a, c) && MeetsAll(b, c) <==> MergeClaims(a, b).Some? && MeetsAll(MergeClaims(a, b).value, c)
    ensures MergeClaims(a, b).None? <==> forall c :: !(MeetsAll(a, c) && MeetsAll(b, c))
  {
    hide MeetsAll, MergeClaims;
    forall c
      ensures MeetsAll(a, c) && MeetsAll(b, c) <==> MergeClaims(a, b).Some? && MeetsAll(MergeClaims(a, b).value, c)
    {
      MergeClaimsIs(a, b, c);
    }
    if MergeClaims(a, b).Some? { FilledMeets(MergeClaims(a, b).value); }
  }

  // ----- the search -----

  function MergeEach(a: ClaimSet, r: seq<ClaimSet>): seq<ClaimSet> {
    if r == [] then [] else
      (match MergeClaims(a, r[0]) case Some(m) => [m] case None => []) + MergeEach(a, r[1..])
  }

  function Both(l: seq<ClaimSet>, r: seq<ClaimSet>): seq<ClaimSet> {
    if l == [] then [] else MergeEach(l[0], r) + Both(l[1..], r)
  }

  /** `claim_witnesses`. */
  function Witnesses(p: Predicate, want: bool): seq<ClaimSet> {
    match p
    case HasClaim(n) => [map[n := if want then Truthy({}) else Falsy({})]]
    case ClaimEquals(n, v) => [map[n := if want then Equals(v) else NotEquals({v})]]
    case And(l, r) => if want then Both(Witnesses(l, want), Witnesses(r, want)) else Witnesses(l, want) + Witnesses(r, want)
    case Or(l, r) => if want then Witnesses(l, want) + Witnesses(r, want) else Both(Witnesses(l, want), Witnesses(r, want))
    case Not(q) => Witnesses(q, !want)
  }

  ghost predicate MeetsSome(ws: seq<ClaimSet>, c: ClaimValues) {
    exists i | 0 <= i < |ws| :: MeetsAll(ws[i], c)
  }

  lemma MeetsSomeAppend(x: seq<ClaimSet>, y: seq<ClaimSet>, c: ClaimValues)
    ensures MeetsSome(x + y, c) <==> MeetsSome(x, c) || MeetsSome(y, c)
  {
    if MeetsSome(x, c) {
      var i :| 0 <= i < |x| && MeetsAll(x[i], c);
      assert (x + y)[i] == x[i];
    }
    if MeetsSome(y, c) {
      var i :| 0 <= i < |y| && MeetsAll(y[i], c);
      assert (x + y)[|x| + i] == y[i];
    }
  }

  lemma MeetsSomeOne(w: ClaimSet, c: ClaimValues)
    ensures MeetsSome([w], c) <==> MeetsAll(w, c)
  {
    if MeetsAll(w, c) { assert [w][0] == w; }
  }

  lemma MeetsSomeSplit(ws: seq<ClaimSet>, c: ClaimValues)
    requires ws != []
    ensures MeetsSome(ws, c) <==> MeetsAll(ws[0], c) || MeetsSome(ws[1..], c)
  {
    MeetsSomeAppend([ws[0]], ws[1..], c);
    MeetsSomeOne(ws[0], c);
    assert [ws[0]] + ws[1..] == ws;
  }

  lemma {:induction false} MergeEachExact(a: ClaimSet, r: seq<ClaimSet>, c: ClaimValues)
    ensures MeetsSome(MergeEach(a, r), c) <==> MeetsAll(a, c) && MeetsSome(r, c)
  {
    hide MeetsSome, MeetsAll, MergeClaims;
    if r == [] {
      MeetsNone(c);
    } else {
      MergeEachExact(a, r[1..], c);
      MergeClaimsIs(a, r[0], c);
      MeetsSomeSplit(r, c);
      match MergeClaims(a, r[0]) {
        case Some(m) => MeetsSomeAppend([m], MergeEach(a, r[1..]), c); MeetsSomeOne(m, c);
        case None => assert [] + MergeEach(a, r[1..]) == MergeEach(a, r[1..]);
      }
    }
  }

  lemma MeetsNone(c: ClaimValues)
    ensures !MeetsSome([], c)
  {
  }

  lemma {:induction false} BothExact(l: seq<ClaimSet>, r: seq<ClaimSet>, c: ClaimValues)
    ensures MeetsSome(Both(l, r), c) <==> MeetsSome(l, c) && MeetsSome(r, c)
  {
    hide MeetsSome, MeetsAll;
    if l == [] {
      MeetsNone(c);
    } else {
      MergeEachExact(l[0], r, c);
      BothExact(l[1..], r, c);
      MeetsSomeAppend(MergeEach(l[0], r), Both(l[1..], r), c);
      MeetsSomeSplit(l, c);
    }
  }

  /** Together the claim sets found describe exactly the claims that give the predicate the wanted value. */
  lemma {:induction false} WitnessesExact(p: Predicate, want: bool, c: ClaimValues)
    ensures MeetsSome(Witnesses(p, want), c) <==> Eval(p, c) == want
  {
    match p
    case HasClaim(n) => MeetsSomeOne(Witnesses(p, want)[0], c);
    case ClaimEquals(n, v) => MeetsSomeOne(Witnesses(p, want)[0], c);
    case And(l, r) =>
      WitnessesExact(l, want, c);
      WitnessesExact(r, want, c);
      BothExact(Witnesses(l, want), Witnesses(r, want), c);
      MeetsSomeAppend(Witnesses(l, want), Witnesses(r, want), c);
    case Or(l, r) =>
      WitnessesExact(l, want, c);
      WitnessesExact(r, want, c);
      BothExact(Witnesses(l, want), Witnesses(r, want), c);
      MeetsSomeAppend(Witnesses(l, want), Witnesses(r, want), c);
    case Not(q) => WitnessesExact(q, !want, c);
  }

  /** The claims the test driver signs: those of the first claim set found that need a value. */
  function SignedClaims(s: ClaimSet): ClaimValues {
    map n | n in s && Signed(s[n]).Some? :: Signed(s[n]).value
  }

  /** `claim_witness_js`, as the object it denotes. */
  function ClaimWitness(p: Predicate): Option<ClaimValues> {
    var found := Witnesses(p, true);
    if found == [] then None else Some(SignedClaims(found[0]))
  }

  // ----- the token the seam sees -----

  /** What surrounds the claims that are signed. `members` is what every object answers, `constructor` for example.
      `stamped` is what signing does not change: the driver writes `sub` and `exp` over the witness, and `__proto__`
      in an object literal is no claim. `now` is the time. */
  datatype Seam = Seam(members: ClaimValues, stamped: ClaimValues, now: nat)

  /** The object the predicate is checked against. */
  function Checked(signed: ClaimValues, seam: Seam): ClaimValues {
    seam.members + signed + seam.stamped
  }

  /** `bearer` verification of the payload: the times are numbers and in range, and the subject is a string. */
  predicate TokenValid(payload: ClaimValues, now: nat) {
    Lookup(payload, "exp").Some? && payload["exp"].Number? && now <= payload["exp"].value &&
    ("nbf" in payload ==> payload["nbf"].Number? && payload["nbf"].value <= now) &&
    Lookup(payload, "sub").Some? && payload["sub"].Str? && payload["sub"].text != ""
  }

  /** The seam lets the token through: it is valid and its claims satisfy the predicate. */
  predicate Admits(p: Predicate, signed: ClaimValues, seam: Seam) {
    TokenValid(signed + seam.stamped, seam.now) && Eval(p, Checked(signed, seam))
  }

  /** The driver stamps a valid subject and expiry and no start of validity, which no object has as a member either. */
  predicate Usual(seam: Seam) {
    TokenValid(seam.stamped, seam.now) && "nbf" !in seam.stamped && "nbf" !in seam.members
  }

  // ----- whether anything signed is let through -----

  /** The needs on names that signing does not change are met by what is stamped there, and none asks that the start of
      validity be a text. */
  predicate Signable(s: ClaimSet, seam: Seam) {
    forall n | n in s ::
      (n in seam.stamped ==> Meets(s[n], Some(seam.stamped[n]))) && (n == "nbf" ==> !s[n].Equals?)
  }

  /** Claims for a set that can be signed; a start of validity that must be there is the first second. */
  function Signing(s: ClaimSet): ClaimValues {
    map n | n in s && (n == "nbf" ==> s[n].Truthy?) :: if n == "nbf" then Number(-1) else FilledNeed(s[n])
  }

  lemma SigningMeets(s: ClaimSet, seam: Seam)
    requires Usual(seam) && Signable(s, seam)
    ensures TokenValid(Signing(s) + seam.stamped, seam.now) && MeetsAll(s, Checked(Signing(s), seam))
  {
    var signed := Signing(s);
    forall n | n in s ensures Meets(s[n], Lookup(Checked(signed, seam), n)) {
      if n !in seam.stamped && n != "nbf" { assert Checked(signed, seam)[n] == FilledNeed(s[n]); }
    }
  }

  lemma MetSignable(s: ClaimSet, signed: ClaimValues, seam: Seam)
    requires Usual(seam) && TokenValid(signed + seam.stamped, seam.now) && MeetsAll(s, Checked(signed, seam))
    ensures Signable(s, seam)
  {
    forall n | n in s
      ensures (n in seam.stamped ==> Meets(s[n], Some(seam.stamped[n]))) && (n == "nbf" ==> !s[n].Equals?)
    {
      assert Meets(s[n], Lookup(Checked(signed, seam), n));
      if n == "nbf" && n in signed { assert (signed + seam.stamped)[n] == Checked(signed, seam)[n]; }
    }
  }

  /** Something that can be signed is let through exactly when one of the claim sets found can be signed. */
  lemma AdmittedIffSignable(p: Predicate, seam: Seam)
    requires Usual(seam)
    ensures (exists signed :: Admits(p, signed, seam)) <==> exists s :: s in Witnesses(p, true) && Signable(s, seam)
  {
    hide Eval, MeetsAll, Signable, Usual, TokenValid;
    var found := Witnesses(p, true);
    if signed :| Admits(p, signed, seam) {
      WitnessesExact(p, true, Checked(signed, seam));
      var i :| 0 <= i < |found| && MeetsAll(found[i], Checked(signed, seam));
      MetSignable(found[i], signed, seam);
    }
    if s :| s in found && Signable(s, seam) {
      SigningMeets(s, seam);
      var i :| 0 <= i < |found| && found[i] == s;
      WitnessesExact(p, true, Checked(Signing(s), seam));
      assert Admits(p, Signing(s), seam);
    }
  }

  /** Where nothing is asked of stamped names nor of the start of validity, the search gives no witness exactly when nothing
      that can be signed is let through. */
  lemma NoWitnessExact(p: Predicate, seam: Seam)
    requires Usual(seam) && forall s | s in Witnesses(p, true) :: s.Keys !! seam.stamped.Keys && "nbf" !in s
    ensures ClaimWitness(p).None? <==> forall signed :: !Admits(p, signed, seam)
  {
    hide Admits, Usual;
    AdmittedIffSignable(p, seam);
    var found := Witnesses(p, true);
    if found != [] { assert found[0] in found && Signable(found[0], seam); }
  }

  // ----- whether the witness is let through -----

  /** What the seam finds under a name when the claims of `first` are signed. */
  function Answer(n: string, first: ClaimSet, seam: Seam): Option<Json> {
    if n in seam.stamped then Some(seam.stamped[n])
    else if n in first && Signed(first[n]).Some? then Signed(first[n])
    else Lookup(seam.members, n)
  }

  /** The claim set is met when the claims of `first` are signed. */
  predicate Answered(s: ClaimSet, first: ClaimSet, seam: Seam) {
    forall n | n in s :: Meets(s[n], Answer(n, first, seam))
  }

  /** The witness signs no start of validity: it would sign a truth value or a text, and a token with one is refused. */
  predicate NoStart(s: ClaimSet) {
    "nbf" in s ==> Signed(s["nbf"]).None?
  }

  lemma AnswerIs(n: string, first: ClaimSet, seam: Seam)
    ensures Lookup(Checked(SignedClaims(first), seam), n) == Answer(n, first, seam)
  {
  }

  /** The signed claims meet a claim set exactly when every name is answered as the set asks. */
  lemma SignedClaimsMeet(s: ClaimSet, first: ClaimSet, seam: Seam)
    ensures MeetsAll(s, Checked(SignedClaims(first), seam)) <==> Answered(s, first, seam)
  {
    hide Meets, Answer, Checked, SignedClaims;
    forall n ensures Lookup(Checked(SignedClaims(first), seam), n) == Answer(n, first, seam) { AnswerIs(n, first, seam); }
  }

  /** The first claim set is met exactly when each need on a stamped name is met by the stamp and each need that signs
      nothing is met by the member of that name, if there is one. */
  lemma FirstSetMet(s: ClaimSet, seam: Seam)
    ensures Answered(s, s, seam) <==>
      forall n | n in s ::
        if n in seam.stamped then Meets(s[n], Some(seam.stamped[n]))
        else Signed(s[n]).None? && n in seam.members ==> Meets(s[n], Some(seam.members[n]))
  {
    forall n | n in s
      ensures Meets(s[n], Answer(n, s, seam)) <==>
        if n in seam.stamped then Meets(s[n], Some(seam.stamped[n]))
        else Signed(s[n]).None? && n in seam.members ==> Meets(s[n], Some(seam.members[n]))
    {
      SignedMeets(s[n]);
    }
  }

  lemma StartSigned(s: ClaimSet, seam: Seam)
    requires Usual(seam)
    ensures TokenValid(SignedClaims(s) + seam.stamped, seam.now) <==> NoStart(s)
  {
    var payload := SignedClaims(s) + seam.stamped;
    assert payload["exp"] == seam.stamped["exp"] && payload["sub"] == seam.stamped["sub"];
    assert "nbf" in payload <==> "nbf" in s && Signed(s["nbf"]).Some?;
  }

  /** The search gives no witness only if nothing satisfies the predicate, whatever is stamped. When there is one, the
      seam lets it through exactly when it signs no start of validity and one of the claim sets found is met by what the
      seam finds under its names. */
  lemma ClaimWitnessExact(p: Predicate, seam: Seam)
    requires Usual(seam)
    ensures ClaimWitness(p).None? <==> forall c :: !Eval(p, c)
    ensures var found := Witnesses(p, true); found != [] ==>
      (Admits(p, ClaimWitness(p).value, seam) <==>
       NoStart(found[0]) && exists s :: s in found && Answered(s, found[0], seam))
  {
    hide Eval, MeetsAll, Answered, TokenValid, Usual, NoStart, SignedClaims;
    var found := Witnesses(p, true);
    if found == [] {
      forall c ensures !Eval(p, c) { WitnessesExact(p, true, c); }
    } else {
      FilledMeets(found[0]);
      WitnessesExact(p, true, Filled(found[0]));
      StartSigned(found[0], seam);
      WitnessesExact(p, true, Checked(SignedClaims(found[0]), seam));
      forall s | s in found ensures MeetsAll(s, Checked(SignedClaims(found[0]), seam)) <==> Answered(s, found[0], seam) {
        SignedClaimsMeet(s, found[0], seam);
      }
    }
  }

  /** A predicate without alternatives has one claim set, and its witness is let through exactly when that set is met. */
  lemma SingleWitnessExact(p: Predicate, seam: Seam)
    requires Usual(seam) && |Witnesses(p, true)| == 1
    ensures Admits(p, ClaimWitness(p).value, seam) <==>
      var s := Witnesses(p, true)[0];
      NoStart(s) && forall n | n in s ::
        if n in seam.stamped then Meets(s[n], Some(seam.stamped[n]))
        else Signed(s[n]).None? && n in seam.members ==> Meets(s[n], Some(seam.members[n]))
  {
    var s := Witnesses(p, true)[0];
    ClaimWitnessExact(p, seam);
    FirstSetMet(s, seam);
    assert forall t :: t in Witnesses(p, true) <==> t == s;
  }

  // ----- witnesses that do not do -----

  /** A claim that must be absent and is answered by a member is not ruled out, though signing a false value would. */
  lemma AnsweredUnsigned(n: string, seam: Seam)
    requires Usual(seam) && n in seam.members && n !in seam.stamped && IsTruthy(Some(seam.members[n]))
    ensures ClaimWitness(Not(HasClaim(n))) == Some(map[]) && !Admits(Not(HasClaim(n)), map[], seam)
    ensures Admits(Not(HasClaim(n)), map[n := Plain(false)], seam)
  {
    assert Witnesses(Not(HasClaim(n)), true) == Witnesses(HasClaim(n), false) == [map[n := Falsy({})]];
    var s := map[n := Falsy({})];
    assert SignedClaims(s) == map[];
    assert Lookup(Checked(map[], seam), n) == Some(seam.members[n]);
    assert Eval(HasClaim(n), Checked(map[], seam));
    var payload := map[n := Plain(false)] + seam.stamped;
    assert payload["exp"] == seam.stamped["exp"] && payload["sub"] == seam.stamped["sub"] && "nbf" !in payload;
  }

  /** `claimEquals` of a name that is stamped otherwise, `sub` of another subject or `exp`, has a witness, and nothing
      that can be signed is let through. */
  lemma StampOverrides(n: string, v: string, signed: ClaimValues, seam: Seam)
    requires n in seam.stamped && seam.stamped[n] != Str(v)
    ensures ClaimWitness(ClaimEquals(n, v)) == Some(map[n := Str(v)]) && !Admits(ClaimEquals(n, v), signed, seam)
  {
    var s := Witnesses(ClaimEquals(n, v), true)[0];
    assert SignedClaims(s) == map[n := Str(v)];
  }

  /** `hasClaim("nbf")` is satisfied by its witness, and the token is refused; a number in the past would do. */
  lemma StartRefused(seam: Seam)
    requires Usual(seam)
    ensures var p := HasClaim("nbf");
      ClaimWitness(p) == Some(map["nbf" := Plain(true)]) && Eval(p, Checked(map["nbf" := Plain(true)], seam)) &&
      !Admits(p, map["nbf" := Plain(true)], seam) && Admits(p, map["nbf" := Number(-1)], seam)
  {
    var s := Witnesses(HasClaim("nbf"), true)[0];
    assert SignedClaims(s) == map["nbf" := Plain(true)];
    var payload, other := map["nbf" := Plain(true)] + seam.stamped, map["nbf" := Number(-1)] + seam.stamped;
    assert payload["nbf"] == Plain(true);
    assert other["nbf"] == Number(-1) && other["exp"] == seam.stamped["exp"] && other["sub"] == seam.stamped["sub"];
  }
}
