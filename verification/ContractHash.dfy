/** From canonical forms to the text that is hashed: fields, variants and predicates are sorted by their text. */
module ContractHash {
  import opened Types
  import opened Refinements
  import opened Contract
  import opened ContractInvariance
  import opened ContractText
  import opened TextOrder
  import ContractReach
  import ContractShapes
  import ContractUnfold

  // ----- sorting texts -----

  predicate Ordered(ts: seq<string>) {
    forall i, j | 0 <= i < j < |ts| :: Leq(ts[i], ts[j])
  }

  /** There is one way to sort a list of texts. */
  lemma {:induction false} OrderedUnique(ss: seq<string>, ts: seq<string>)
    requires Ordered(ss) && Ordered(ts) && multiset(ss) == multiset(ts)
    ensures ss == ts
  {
    assert |ss| == |multiset(ss)| && |ts| == |multiset(ts)|;
    if ss != [] {
      OrderedFirst(ss, ts);
      OrderedFirst(ts, ss);
      LeqAntisymmetric(ss[0], ts[0]);
      assert ss == [ss[0]] + ss[1..] && ts == [ts[0]] + ts[1..];
      assert multiset(ss[1..]) == multiset(ss) - multiset{ss[0]};
      assert multiset(ts[1..]) == multiset(ts) - multiset{ts[0]};
      OrderedUnique(ss[1..], ts[1..]);
    }
  }

  lemma OrderedFirst(ss: seq<string>, ts: seq<string>)
    requires Ordered(ss) && ss != [] && ts != [] && multiset(ss) == multiset(ts)
    ensures Leq(ss[0], ts[0])
  {
    assert ts[0] in multiset(ts);
    assert ts[0] in ss;
    LeqTotal(ss[0], ss[0]);
  }

  function Images<T, F>(xs: seq<T>, image: T -> F): (fs: seq<F>)
    ensures |fs| == |xs| && forall i | 0 <= i < |xs| :: fs[i] == image(xs[i])
  {
    seq(|xs|, i requires 0 <= i < |xs| => image(xs[i]))
  }

  function Insert<T>(x: T, xs: seq<T>, key: T -> string): (ys: seq<T>)
    requires Ordered(Images(xs, key))
    ensures multiset(ys) == multiset{x} + multiset(xs) && Ordered(Images(ys, key))
  {
    if xs == [] then [x]
    else if Leq(key(x), key(xs[0])) then
      InsertFront(x, xs, key);
      [x] + xs
    else
      InsertBehind(x, xs, key);
      [xs[0]] + Insert(x, xs[1..], key)
  }

  lemma InsertFront<T>(x: T, xs: seq<T>, key: T -> string)
    requires xs != [] && Ordered(Images(xs, key)) && Leq(key(x), key(xs[0]))
    ensures Ordered(Images([x] + xs, key))
  {
    var ks, all := Images(xs, key), Images([x] + xs, key);
    forall i, j | 0 <= i < j < |all| ensures Leq(all[i], all[j]) {
      if i == 0 {
        if j > 1 { assert Leq(ks[0], ks[j - 1]); LeqTransitive(key(x), ks[0], ks[j - 1]); }
      } else {
        assert Leq(ks[i - 1], ks[j - 1]);
      }
    }
  }

  lemma InsertBehind<T>(x: T, xs: seq<T>, key: T -> string)
    requires xs != [] && Ordered(Images(xs, key)) && !Leq(key(x), key(xs[0]))
    ensures Ordered(Images(xs[1..], key)) && xs == [xs[0]] + xs[1..]
    ensures forall ys: seq<T> | multiset(ys) == multiset{x} + multiset(xs[1..]) && Ordered(Images(ys, key)) ::
      Ordered(Images([xs[0]] + ys, key))
  {
    var ks := Images(xs, key);
    var rest := Images(xs[1..], key);
    forall i, j | 0 <= i < j < |rest| ensures Leq(rest[i], rest[j]) { assert Leq(ks[i + 1], ks[j + 1]); }
    LeqTotal(key(x), key(xs[0]));
    forall ys: seq<T> | multiset(ys) == multiset{x} + multiset(xs[1..]) && Ordered(Images(ys, key))
      ensures Ordered(Images([xs[0]] + ys, key))
    {
      var all, tail := Images([xs[0]] + ys, key), Images(ys, key);
      forall i, j | 0 <= i < j < |all| ensures Leq(all[i], all[j]) {
        if i == 0 {
          assert ys[j - 1] in multiset(ys);
          if ys[j - 1] != x {
            assert ys[j - 1] in xs[1..];
            var k :| 1 <= k < |xs| && xs[k] == ys[j - 1];
            assert Leq(ks[0], ks[k]);
          }
        } else {
          assert Leq(tail[i - 1], tail[j - 1]);
        }
      }
    }
  }

  function SortBy<T>(xs: seq<T>, key: T -> string): (ys: seq<T>)
    ensures multiset(ys) == multiset(xs) && Ordered(Images(ys, key))
  {
    if xs == [] then []
    else
      assert xs == [xs[0]] + xs[1..];
      Insert(xs[0], SortBy(xs[1..], key), key)
  }

  // ----- the form a spelled tree stands for -----

  function Forget(s: Spelled): Form {
    match s
    case BaseS(b) => BaseForm(b)
    case AtomS(a) => AtomForm(a)
    case WrapS(w, a) => WrapForm(w, Forget(a))
    case PairS(p, a, b) => PairForm(p, Forget(a), Forget(b))
    case NonBoundaryS => NonBoundary
    case AppS(h, args) => AppForm(Forget(h), seq(|args|, i requires 0 <= i < |args| => Forget(args[i])))
    case BackReferenceS(n) => BackReference(n)
    case UndeclaredS(n) => Undeclared(n)
    case DeclaredS(n, body) => Declared(n, ForgetBody(body))
  }

  function ForgetBody(body: SpelledBody): BodyForm {
    match body
    case RefinedS(b, preds) => RefinedForm(b, ForgetPreds(preds))
    case OpaqueS(b) => OpaqueForm(b)
    case RecordS(fs) => RecordForm(multiset(seq(|fs|, i requires 0 <= i < |fs| => ForgetField(fs[i]))))
    case SumS(vs) => SumForm(multiset(seq(|vs|, i requires 0 <= i < |vs| => ForgetVariant(vs[i]))))
  }

  function ForgetPreds(preds: Option<seq<Pred>>): Option<set<Pred>> {
    match preds
    case None => None
    case Some(ps) => Some(set p | p in ps)
  }

  function ForgetField(f: SpelledField): FieldForm {
    FieldForm(f.name, Forget(f.typ), ForgetPreds(f.preds))
  }

  function ForgetVariant(v: SpelledVariant): VariantForm {
    VariantForm(v.name, seq(|v.payload|, i requires 0 <= i < |v.payload| => Forget(v.payload[i])))
  }

  // ----- the spelling the checker chooses -----

  ghost function Listed<T(!new)>(m: multiset<T>): (xs: seq<T>)
    ensures multiset(xs) == m
  {
    if m == multiset{} then []
    else
      var x :| x in m;
      [x] + Listed(m - multiset{x})
  }

  ghost function ListedSet<T(!new)>(m: set<T>): (xs: seq<T>)
    ensures (set x | x in xs) == m && multiset(xs) == multiset(m)
  {
    if m == {} then []
    else
      var x :| x in m;
      assert m == {x} + (m - {x});
      [x] + ListedSet(m - {x})
  }

  function PredKey(floats: Floats): Pred -> string { p => PredText(p, floats) }

  function FieldKey(floats: Floats): SpelledField -> string { f => FieldText(f, floats) }

  function VariantKey(floats: Floats): SpelledVariant -> string { v => VariantText(v, floats) }

  ghost function SpellPreds(preds: Option<set<Pred>>, floats: Floats): Option<seq<Pred>> {
    match preds
    case None => None
    case Some(ps) => Some(SortBy(ListedSet(ps), PredKey(floats)))
  }

  /** Fields, variants and predicates in the order of their texts. */
  ghost function Spell(f: Form, floats: Floats): Spelled {
    match f
    case BaseForm(b) => BaseS(b)
    case AtomForm(a) => AtomS(a)
    case WrapForm(w, a) => WrapS(w, Spell(a, floats))
    case PairForm(p, a, b) => PairS(p, Spell(a, floats), Spell(b, floats))
    case NonBoundary => NonBoundaryS
    case AppForm(h, args) => AppS(Spell(h, floats), seq(|args|, i requires 0 <= i < |args| => Spell(args[i], floats)))
    case BackReference(n) => BackReferenceS(n)
    case Undeclared(n) => UndeclaredS(n)
    case Declared(n, body) => DeclaredS(n, SpellBody(body, floats))
  }

  ghost function SpellBody(body: BodyForm, floats: Floats): SpelledBody
    decreases body, 1
  {
    match body
    case RefinedForm(b, preds) => RefinedS(b, SpellPreds(preds, floats))
    case OpaqueForm(b) => OpaqueS(b)
    case RecordForm(_) => RecordS(SortBy(SpellFields(body, floats), FieldKey(floats)))
    case SumForm(_) => SumS(SortBy(SpellVariants(body, floats), VariantKey(floats)))
  }

  ghost function SpellFields(body: BodyForm, floats: Floats): seq<SpelledField>
    requires body.RecordForm?
    decreases body, 0
  {
    var fs := Listed(body.fields);
    seq(|fs|, i requires 0 <= i < |fs| => assert fs[i] in multiset(fs); SpellField(fs[i], floats))
  }

  ghost function SpellVariants(body: BodyForm, floats: Floats): seq<SpelledVariant>
    requires body.SumForm?
    decreases body, 0
  {
    var vs := Listed(body.variants);
    seq(|vs|, i requires 0 <= i < |vs| => assert vs[i] in multiset(vs); SpellVariant(vs[i], floats))
  }

  ghost function SpellField(f: FieldForm, floats: Floats): SpelledField {
    SpelledField(f.name, Spell(f.typ, floats), SpellPreds(f.preds, floats))
  }

  ghost function SpellVariant(v: VariantForm, floats: Floats): SpelledVariant {
    SpelledVariant(v.name, seq(|v.payload|, i requires 0 <= i < |v.payload| => Spell(v.payload[i], floats)))
  }

  lemma SameMembers<T>(xs: seq<T>, ys: seq<T>)
    requires multiset(xs) == multiset(ys)
    ensures forall x :: x in xs <==> x in ys
  {
    forall x ensures x in xs <==> x in ys { assert x in multiset(xs) <==> x in multiset(ys); }
  }

  lemma ForgetSpellPreds(preds: Option<set<Pred>>, floats: Floats)
    ensures ForgetPreds(SpellPreds(preds, floats)) == preds
  {
    hide PredText, SortBy, ListedSet;
    if preds.Some? {
      var listed := ListedSet(preds.value);
      var sorted := SortBy(listed, PredKey(floats));
      SameMembers(listed, sorted);
      assert forall p :: p in listed <==> p in (set x | x in listed);
      assert (set p | p in sorted) == preds.value;
      assert SpellPreds(preds, floats) == Some(sorted);
    }
  }

  lemma ImagesWithout<T, F>(xs: seq<T>, image: T -> F, j: nat)
    requires j < |xs|
    ensures multiset(xs) == multiset{xs[j]} + multiset(Without(xs, j))
    ensures multiset(Images(xs, image)) == multiset{image(xs[j])} + multiset(Images(Without(xs, j), image))
  {
    MultisetWithout(xs, j);
    MultisetWithout(Images(xs, image), j);
    assert Without(Images(xs, image), j) == Images(Without(xs, j), image);
  }

  /** Images of two lists with the same elements have the same elements. */
  lemma {:induction false} ImagesEqual<T, F>(xs: seq<T>, ys: seq<T>, image: T -> F)
    requires multiset(xs) == multiset(ys)
    ensures multiset(Images(xs, image)) == multiset(Images(ys, image))
    decreases |xs|
  {
    hide Without, Images;
    assert |xs| == |multiset(xs)| == |multiset(ys)| == |ys|;
    if xs == [] {
      assert ys == [];
    } else {
      assert xs[0] in multiset(ys);
      var j :| 0 <= j < |ys| && ys[j] == xs[0];
      ImagesWithout(xs, image, 0);
      ImagesWithout(ys, image, j);
      WithoutShorter(xs, 0);
      assert multiset(Without(xs, 0)) == multiset(xs) - multiset{xs[0]};
      assert multiset(Without(ys, j)) == multiset(ys) - multiset{xs[0]};
      ImagesEqual(Without(xs, 0), Without(ys, j), image);
    }
  }

  lemma WithoutShorter<T>(s: seq<T>, j: nat)
    requires j < |s|
    ensures |Without(s, j)| == |s| - 1
  {
  }

  /** The spelling of a form is a spelling of that form. */
  lemma {:induction false} ForgetSpell(f: Form, floats: Floats)
    ensures Forget(Spell(f, floats)) == f
    decreases f, 1
  {
    hide SpellBody, ForgetBody;
    match f
    case WrapForm(w, a) => ForgetSpell(a, floats);
    case PairForm(p, a, b) =>
      ForgetSpell(a, floats);
      ForgetSpell(b, floats);
    case AppForm(h, args) =>
      ForgetSpell(h, floats);
      forall i | 0 <= i < |args| ensures Forget(Spell(args[i], floats)) == args[i] { ForgetSpell(args[i], floats); }
      assert Forget(Spell(f, floats)).args == args;
    case Declared(n, body) => ForgetSpellBody(body, floats);
    case _ =>
  }

  lemma ForgetRecord(fs: seq<SpelledField>)
    ensures ForgetBody(RecordS(fs)) == RecordForm(multiset(Images(fs, ForgetField)))
  {
    assert seq(|fs|, i requires 0 <= i < |fs| => ForgetField(fs[i])) == Images(fs, ForgetField);
  }

  lemma ForgetSum(vs: seq<SpelledVariant>)
    ensures ForgetBody(SumS(vs)) == SumForm(multiset(Images(vs, ForgetVariant)))
  {
    assert seq(|vs|, i requires 0 <= i < |vs| => ForgetVariant(vs[i])) == Images(vs, ForgetVariant);
  }

  lemma {:induction false} ForgetSpellBody(body: BodyForm, floats: Floats)
    ensures ForgetBody(SpellBody(body, floats)) == body
    decreases body, 1
  {
    hide SortBy, SpellFields, SpellVariants, FieldKey, VariantKey, SpellPreds, ForgetField, ForgetVariant, Images;
    match body
    case RefinedForm(b, preds) => ForgetSpellPreds(preds, floats);
    case OpaqueForm(b) =>
    case RecordForm(fields) =>
      ForgetSpellFields(body, floats);
      ForgetRecord(SortBy(SpellFields(body, floats), FieldKey(floats)));
    case SumForm(variants) =>
      ForgetSpellVariants(body, floats);
      ForgetSum(SortBy(SpellVariants(body, floats), VariantKey(floats)));
  }

  lemma {:induction false} ForgetSpellFields(body: BodyForm, floats: Floats)
    requires body.RecordForm?
    ensures multiset(Images(SortBy(SpellFields(body, floats), FieldKey(floats)), ForgetField)) == body.fields
    decreases body, 0
  {
    hide SortBy, SpellField, ForgetField, FieldKey;
    var listed, spelled := Listed(body.fields), SpellFields(body, floats);
    forall i | 0 <= i < |listed| ensures ForgetField(spelled[i]) == listed[i] {
      assert listed[i] in multiset(listed);
      ForgetSpellField(listed[i], floats);
    }
    ImagesEqual(SortBy(spelled, FieldKey(floats)), spelled, ForgetField);
    assert Images(spelled, ForgetField) == listed;
  }

  lemma {:induction false} ForgetSpellVariants(body: BodyForm, floats: Floats)
    requires body.SumForm?
    ensures multiset(Images(SortBy(SpellVariants(body, floats), VariantKey(floats)), ForgetVariant)) == body.variants
    decreases body, 0
  {
    hide SortBy, SpellVariant, ForgetVariant, VariantKey;
    var listed, spelled := Listed(body.variants), SpellVariants(body, floats);
    forall i | 0 <= i < |listed| ensures ForgetVariant(spelled[i]) == listed[i] {
      assert listed[i] in multiset(listed);
      ForgetSpellVariant(listed[i], floats);
    }
    ImagesEqual(SortBy(spelled, VariantKey(floats)), spelled, ForgetVariant);
    assert Images(spelled, ForgetVariant) == listed;
  }

  lemma {:induction false} ForgetSpellField(f: FieldForm, floats: Floats)
    ensures ForgetField(SpellField(f, floats)) == f
    decreases f, 2
  {
    ForgetSpell(f.typ, floats);
    ForgetSpellPreds(f.preds, floats);
  }

  lemma {:induction false} ForgetSpellVariant(v: VariantForm, floats: Floats)
    ensures ForgetVariant(SpellVariant(v, floats)) == v
    decreases v, 2
  {
    forall k | 0 <= k < |v.payload| ensures Forget(Spell(v.payload[k], floats)) == v.payload[k] {
      ForgetSpell(v.payload[k], floats);
    }
  }

  // ----- sorting leaves one text per form -----

  predicate NoRepeat(ps: seq<Pred>) {
    forall i, j | 0 <= i < j < |ps| :: ps[i] != ps[j]
  }

  predicate SortedPreds(preds: Option<seq<Pred>>, floats: Floats) {
    preds.Some? ==> Ordered(Images(preds.value, PredKey(floats))) && NoRepeat(preds.value)
  }

  /** Every list is sorted by its items' texts, and predicates do not repeat: what sorting each rendered list
      leaves behind. */
  predicate Sorted(s: Spelled, floats: Floats) {
    match s
    case WrapS(_, a) => Sorted(a, floats)
    case PairS(_, a, b) => Sorted(a, floats) && Sorted(b, floats)
    case AppS(h, args) => Sorted(h, floats) && forall i | 0 <= i < |args| :: Sorted(args[i], floats)
    case DeclaredS(_, body) => SortedBody(body, floats)
    case _ => true
  }

  predicate SortedBody(body: SpelledBody, floats: Floats) {
    match body
    case RefinedS(_, preds) => SortedPreds(preds, floats)
    case OpaqueS(_) => true
    case RecordS(fs) =>
      Ordered(Images(fs, FieldKey(floats))) &&
      forall i | 0 <= i < |fs| :: Sorted(fs[i].typ, floats) && SortedPreds(fs[i].preds, floats)
    case SumS(vs) =>
      Ordered(Images(vs, VariantKey(floats))) &&
      forall i | 0 <= i < |vs| :: forall k | 0 <= k < |vs[i].payload| :: Sorted(vs[i].payload[k], floats)
  }

  lemma MultisetSplit(all: set<Pred>, x: Pred, rest: set<Pred>)
    requires all == {x} + rest && x !in rest
    ensures multiset(all) == multiset{x} + multiset(rest)
  {
  }

  lemma {:induction false} NoRepeatMultiset(ps: seq<Pred>)
    requires NoRepeat(ps)
    ensures multiset(ps) == multiset(set p | p in ps)
  {
    if ps != [] {
      assert ps == [ps[0]] + ps[1..];
      NoRepeatMultiset(ps[1..]);
      var all, rest := set p | p in ps, set p | p in ps[1..];
      assert ps[0] !in ps[1..];
      MultisetSplit(all, ps[0], rest);
    }
  }

  lemma {:induction false} PredsTextByKeys(ps: seq<Pred>, qs: seq<Pred>, floats: Floats)
    requires Images(ps, PredKey(floats)) == Images(qs, PredKey(floats))
    ensures PredsText(ps, floats) == PredsText(qs, floats)
  {
    var ks, ls := Images(ps, PredKey(floats)), Images(qs, PredKey(floats));
    assert |ps| == |ks| == |ls| == |qs|;
    if ps != [] {
      assert ks[0] == ls[0];
      assert Images(ps[1..], PredKey(floats)) == ks[1..] && Images(qs[1..], PredKey(floats)) == ls[1..];
      PredsTextByKeys(ps[1..], qs[1..], floats);
    }
  }

  lemma SamePredsText(p: Option<seq<Pred>>, q: Option<seq<Pred>>, floats: Floats)
    requires SortedPreds(p, floats) && SortedPreds(q, floats) && ForgetPreds(p) == ForgetPreds(q)
    ensures RefinementText(p, floats) == RefinementText(q, floats) && InlineText(p, floats) == InlineText(q, floats)
  {
    hide PredsText, PredKey;
    if p.Some? {
      NoRepeatMultiset(p.value);
      NoRepeatMultiset(q.value);
      ImagesEqual(p.value, q.value, PredKey(floats));
      OrderedUnique(Images(p.value, PredKey(floats)), Images(q.value, PredKey(floats)));
      PredsTextByKeys(p.value, q.value, floats);
    }
  }

  /** Lists whose items have the same forms, and one text for each form, have the same texts once sorted. */
  lemma SameTexts<T>(xs: seq<T>, ys: seq<T>, fs: seq<string>, gs: seq<string>, related: iset<(T, T)>)
    requires |fs| == |xs| && |gs| == |ys| && Ordered(fs) && Ordered(gs) && Matched(xs, ys, related)
    requires forall i, j | 0 <= i < |xs| && 0 <= j < |ys| :: (xs[i], ys[j]) in related ==> fs[i] == gs[j]
    ensures fs == gs
  {
    MatchedImages(xs, ys, related, fs, gs);
    OrderedUnique(fs, gs);
  }

  ghost function SameField(): iset<(SpelledField, SpelledField)> {
    iset q: (SpelledField, SpelledField) | ForgetField(q.0) == ForgetField(q.1)
  }

  ghost function SameVariant(): iset<(SpelledVariant, SpelledVariant)> {
    iset q: (SpelledVariant, SpelledVariant) | ForgetVariant(q.0) == ForgetVariant(q.1)
  }

  lemma {:induction false} FieldsTextByKeys(fs: seq<SpelledField>, gs: seq<SpelledField>, floats: Floats)
    requires Images(fs, FieldKey(floats)) == Images(gs, FieldKey(floats))
    ensures FieldsText(fs, floats) == FieldsText(gs, floats)
  {
    hide FieldText;
    var ks, ls := Images(fs, FieldKey(floats)), Images(gs, FieldKey(floats));
    assert |fs| == |ks| == |ls| == |gs|;
    if fs != [] {
      assert ks[0] == ls[0];
      assert Images(fs[1..], FieldKey(floats)) == ks[1..] && Images(gs[1..], FieldKey(floats)) == ls[1..];
      FieldsTextByKeys(fs[1..], gs[1..], floats);
    }
  }

  lemma {:induction false} VariantsTextByKeys(vs: seq<SpelledVariant>, ws: seq<SpelledVariant>, floats: Floats)
    requires Images(vs, VariantKey(floats)) == Images(ws, VariantKey(floats))
    ensures VariantsText(vs, floats) == VariantsText(ws, floats)
  {
    hide VariantText;
    var ks, ls := Images(vs, VariantKey(floats)), Images(ws, VariantKey(floats));
    assert |vs| == |ks| == |ls| == |ws|;
    if vs != [] {
      assert ks[0] == ls[0];
      assert Images(vs[1..], VariantKey(floats)) == ks[1..] && Images(ws[1..], VariantKey(floats)) == ls[1..];
      VariantsTextByKeys(vs[1..], ws[1..], floats);
    }
  }

  /** However a form's parts are listed, sorting gives one text. */
  lemma {:induction false} SortedTextUnique(s: Spelled, t: Spelled, floats: Floats)
    requires Sorted(s, floats) && Sorted(t, floats) && Forget(s) == Forget(t)
    ensures Text(s, floats) == Text(t, floats)
    decreases s, 2
  {
    hide SortedBody, ForgetBody, BodyText, ListText;
    match s
    case WrapS(w, a) => SortedTextUnique(a, t.inner, floats);
    case PairS(p, a, b) =>
      SortedTextUnique(a, t.first, floats);
      SortedTextUnique(b, t.second, floats);
    case AppS(h, args) =>
      SortedTextUnique(h, t.head, floats);
      ForgetArgs(s, t);
      SortedListUnique(args, t.args, floats);
    case DeclaredS(n, body) => SortedBodyUnique(body, t.body, floats);
    case _ =>
  }

  lemma ForgetArgs(s: Spelled, t: Spelled)
    requires s.AppS? && t.AppS? && Forget(s) == Forget(t)
    ensures |s.args| == |t.args| && forall i | 0 <= i < |s.args| :: Forget(s.args[i]) == Forget(t.args[i])
  {
    var f, g := Forget(s).args, Forget(t).args;
    assert |s.args| == |f| && |t.args| == |g|;
    forall i | 0 <= i < |s.args| ensures Forget(s.args[i]) == Forget(t.args[i]) {
      assert f[i] == Forget(s.args[i]) && g[i] == Forget(t.args[i]);
    }
  }

  lemma {:induction false} SortedListUnique(ss: seq<Spelled>, ts: seq<Spelled>, floats: Floats)
    requires |ss| == |ts| && forall i | 0 <= i < |ss| :: Sorted(ss[i], floats) && Sorted(ts[i], floats) && Forget(ss[i]) == Forget(ts[i])
    ensures ListText(ss, floats) == ListText(ts, floats)
    decreases ss, 0
  {
    hide Sorted, Forget, Text;
    if ss != [] {
      SortedTextUnique(ss[0], ts[0], floats);
      SortedListUnique(ss[1..], ts[1..], floats);
    }
  }

  lemma {:induction false} SortedBodyUnique(b: SpelledBody, c: SpelledBody, floats: Floats)
    requires SortedBody(b, floats) && SortedBody(c, floats) && ForgetBody(b) == ForgetBody(c)
    ensures BodyText(b, floats) == BodyText(c, floats)
    decreases b, 1
  {
    hide FieldsText, VariantsText, Sorted, SortedPreds, Images, ForgetField, ForgetVariant, Ordered;
    match b
    case RefinedS(_, preds) => SamePredsText(preds, c.preds, floats);
    case OpaqueS(_) =>
    case RecordS(fs) => SortedFieldsUnique(b, c, floats);
    case SumS(vs) => SortedVariantsUnique(b, c, floats);
  }

  lemma {:induction false} SortedFieldsUnique(b: SpelledBody, c: SpelledBody, floats: Floats)
    requires b.RecordS? && c.RecordS? && SortedBody(b, floats) && SortedBody(c, floats) && ForgetBody(b) == ForgetBody(c)
    ensures FieldsText(b.fields, floats) == FieldsText(c.fields, floats)
    decreases b, 0
  {
    hide FieldText, Sorted, SortedPreds, ForgetField, Ordered, Matched;
    var fs, gs := b.fields, c.fields;
    ForgetRecord(fs);
    ForgetRecord(gs);
    MatchedIffMultisets(fs, gs, SameField(), Images(fs, ForgetField), Images(gs, ForgetField));
    forall i, j | 0 <= i < |fs| && 0 <= j < |gs| && (fs[i], gs[j]) in SameField()
      ensures FieldText(fs[i], floats) == FieldText(gs[j], floats)
    {
      SortedFieldUnique(fs[i], gs[j], floats);
    }
    SameTexts(fs, gs, Images(fs, FieldKey(floats)), Images(gs, FieldKey(floats)), SameField());
    FieldsTextByKeys(fs, gs, floats);
  }

  lemma {:induction false} SortedFieldUnique(f: SpelledField, g: SpelledField, floats: Floats)
    requires Sorted(f.typ, floats) && Sorted(g.typ, floats) && SortedPreds(f.preds, floats) && SortedPreds(g.preds, floats)
    requires ForgetField(f) == ForgetField(g)
    ensures FieldText(f, floats) == FieldText(g, floats)
    decreases f, 3
  {
    hide SortedPreds, Sorted, Forget, ForgetPreds, InlineText;
    SortedTextUnique(f.typ, g.typ, floats);
    SamePredsText(f.preds, g.preds, floats);
  }

  lemma {:induction false} SortedVariantsUnique(b: SpelledBody, c: SpelledBody, floats: Floats)
    requires b.SumS? && c.SumS? && SortedBody(b, floats) && SortedBody(c, floats) && ForgetBody(b) == ForgetBody(c)
    ensures VariantsText(b.variants, floats) == VariantsText(c.variants, floats)
    decreases b, 0
  {
    hide VariantText, Sorted, ForgetVariant, Ordered, Matched;
    var vs, ws := b.variants, c.variants;
    ForgetSum(vs);
    ForgetSum(ws);
    MatchedIffMultisets(vs, ws, SameVariant(), Images(vs, ForgetVariant), Images(ws, ForgetVariant));
    forall i, j | 0 <= i < |vs| && 0 <= j < |ws| && (vs[i], ws[j]) in SameVariant()
      ensures VariantText(vs[i], floats) == VariantText(ws[j], floats)
    {
      SortedVariantUnique(vs[i], ws[j], floats);
    }
    SameTexts(vs, ws, Images(vs, VariantKey(floats)), Images(ws, VariantKey(floats)), SameVariant());
    VariantsTextByKeys(vs, ws, floats);
  }

  lemma {:induction false} SortedVariantUnique(v: SpelledVariant, w: SpelledVariant, floats: Floats)
    requires forall k | 0 <= k < |v.payload| :: Sorted(v.payload[k], floats)
    requires forall k | 0 <= k < |w.payload| :: Sorted(w.payload[k], floats)
    requires ForgetVariant(v) == ForgetVariant(w)
    ensures VariantText(v, floats) == VariantText(w, floats)
    decreases v, 3
  {
    hide Sorted, Forget, ListText;
    var f, g := ForgetVariant(v).payload, ForgetVariant(w).payload;
    assert |v.payload| == |f| && |w.payload| == |g|;
    forall i | 0 <= i < |v.payload| ensures Forget(v.payload[i]) == Forget(w.payload[i]) {
      assert f[i] == Forget(v.payload[i]) && g[i] == Forget(w.payload[i]);
    }
    SortedListUnique(v.payload, w.payload, floats);
  }

  lemma NoRepeatFromSet(ps: seq<Pred>, m: set<Pred>)
    requires multiset(ps) == multiset(m)
    ensures NoRepeat(ps)
  {
    forall i, j | 0 <= i < j < |ps| ensures ps[i] != ps[j] {
      assert ps == ps[..j] + ps[j..];
      assert ps[i] in multiset(ps[..j]) && ps[j] in multiset(ps[j..]);
      assert multiset(ps)[ps[i]] == multiset(ps[..j])[ps[i]] + multiset(ps[j..])[ps[i]];
    }
  }

  /** The checker's spelling is sorted. */
  lemma {:induction false} SpellSorted(f: Form, floats: Floats)
    ensures Sorted(Spell(f, floats), floats)
    decreases f, 1
  {
    hide SpellBody, SortedBody;
    match f
    case WrapForm(w, a) => SpellSorted(a, floats);
    case PairForm(p, a, b) =>
      SpellSorted(a, floats);
      SpellSorted(b, floats);
    case AppForm(h, args) =>
      SpellSorted(h, floats);
      forall i | 0 <= i < |args| ensures Sorted(Spell(args[i], floats), floats) { SpellSorted(args[i], floats); }
    case Declared(n, body) => SpellBodySorted(body, floats);
    case _ =>
  }

  lemma SpellPredsSorted(preds: Option<set<Pred>>, floats: Floats)
    ensures SortedPreds(SpellPreds(preds, floats), floats)
  {
    hide PredKey, NoRepeat;
    if preds.Some? { NoRepeatFromSet(SortBy(ListedSet(preds.value), PredKey(floats)), preds.value); }
  }

  lemma {:induction false} SpellBodySorted(body: BodyForm, floats: Floats)
    ensures SortedBody(SpellBody(body, floats), floats)
    decreases body, 1
  {
    hide SpellFields, SpellVariants, PredKey, FieldKey, VariantKey, Ordered, Images, Sorted, SortedPreds, SortBy, SpellPreds;
    match body
    case RefinedForm(b, preds) => SpellPredsSorted(preds, floats);
    case OpaqueForm(b) =>
    case RecordForm(fields) => SpellFieldsSorted(body, floats);
    case SumForm(variants) => SpellVariantsSorted(body, floats);
  }

  lemma {:induction false} SpellFieldsSorted(body: BodyForm, floats: Floats)
    requires body.RecordForm?
    ensures forall f | f in SortBy(SpellFields(body, floats), FieldKey(floats)) ::
      Sorted(f.typ, floats) && SortedPreds(f.preds, floats)
    decreases body, 0
  {
    hide FieldKey, Ordered, Images, Sorted, SortedPreds, SortBy, Spell, SpellPreds, SpellFields;
    var spelled := SpellFields(body, floats);
    SameMembers(SortBy(spelled, FieldKey(floats)), spelled);
    forall f | f in spelled ensures Sorted(f.typ, floats) && SortedPreds(f.preds, floats) {
      var g := SpelledOf(body, f, floats);
      SpellSorted(g.typ, floats);
      SpellPredsSorted(g.preds, floats);
    }
  }

  lemma {:induction false} SpellVariantsSorted(body: BodyForm, floats: Floats)
    requires body.SumForm?
    ensures forall v | v in SortBy(SpellVariants(body, floats), VariantKey(floats)) ::
      forall k | 0 <= k < |v.payload| :: Sorted(v.payload[k], floats)
    decreases body, 0
  {
    hide VariantKey, Ordered, Images, Sorted, SortBy, Spell, SpellVariants;
    var spelled := SpellVariants(body, floats);
    SameMembers(SortBy(spelled, VariantKey(floats)), spelled);
    forall v, k | v in spelled && 0 <= k < |v.payload| ensures Sorted(v.payload[k], floats) {
      var w := SpelledVariantOf(body, v, floats);
      SpellSorted(w.payload[k], floats);
    }
  }

  /** The field of the form a spelled field stands for. */
  ghost function SpelledOf(body: BodyForm, f: SpelledField, floats: Floats): (r: FieldForm)
    requires body.RecordForm? && f in SpellFields(body, floats)
    ensures r in body.fields && f == SpellField(r, floats) && r < body
  {
    var fs := Listed(body.fields);
    var i :| 0 <= i < |fs| && SpellFields(body, floats)[i] == f;
    assert fs[i] in multiset(fs);
    fs[i]
  }

  ghost function SpelledVariantOf(body: BodyForm, v: SpelledVariant, floats: Floats): (r: VariantForm)
    requires body.SumForm? && v in SpellVariants(body, floats)
    ensures r in body.variants && v == SpellVariant(r, floats) && r < body
  {
    var vs := Listed(body.variants);
    var i :| 0 <= i < |vs| && SpellVariants(body, floats)[i] == v;
    assert vs[i] in multiset(vs);
    vs[i]
  }

  // ----- tables whose forms can be read back -----

  predicate GoodName(n: string, types: Table) {
    TypeName(n) && (n in types || (!BarePred(n) && !EndsWithBase(n)))
  }

  predicate GoodRef(t: TypeRef, types: Table) {
    match t
    case BaseRef(_) => true
    case AtomRef(a) => a != BoundaryRejection
    case NamedRef(n) => GoodName(n, types)
    case WrapRef(_, a) => GoodRef(a, types)
    case PairRef(_, a, b) => GoodRef(a, types) && GoodRef(b, types)
    case FnRef(_, _) => true
    case HistoryRef(_) => true
    case AppRef(n, args) => GoodName(n, types) && forall i | 0 <= i < |args| :: GoodRef(args[i], types)
  }

  predicate GoodBounds(r: Refinement, floats: Floats) {
    r.Some? ==> forall i | 0 <= i < |r.value| ::
      r.value[i].InRangeF? ==> r.value[i].lowF in floats.values && r.value[i].highF in floats.values
  }

  predicate GoodDecl(body: Body, types: Table, floats: Floats) {
    match body
    case Refined(_, r) => GoodBounds(r, floats)
    case Opaque(_, _) => true
    case Record(fs) => forall i | 0 <= i < |fs| ::
      Identifier(fs[i].name) && GoodRef(fs[i].typ, types) && GoodBounds(fs[i].refinement, floats)
    case Sum(vs) => forall i | 0 <= i < |vs| ::
      Identifier(vs[i].name) && forall k | 0 <= k < |vs[i].payload| :: GoodRef(vs[i].payload[k].typ, types)
  }

  /** Every name is an identifier and no built-in one, and a name without a declaration is neither a bare
      predicate nor ends with a base type's name. */
  ghost predicate GoodTable(types: Table, floats: Floats) {
    forall n | n in types :: GoodDecl(types[n].body, types, floats)
  }

  ghost predicate GoodForm(f: Form, floats: Floats) {
    Good(Spell(f, floats), floats)
  }

  lemma SpellPredsGood(r: Refinement, floats: Floats)
    requires GoodBounds(r, floats)
    ensures var preds := SpellPreds(CanonicalRefinement(r), floats); preds.Some? ==> GoodPreds(preds.value, floats)
  {
    hide PredKey;
    if r.Some? {
      var all := CanonicalRefinement(r).value;
      var listed := ListedSet(all);
      var sorted := SortBy(listed, PredKey(floats));
      SameMembers(sorted, listed);
      forall i | 0 <= i < |sorted| ensures GoodPred(sorted[i], floats) {
        assert sorted[i] in listed;
        assert sorted[i] in (set x | x in listed);
        assert sorted[i] in all;
        var p :| p in r.value && sorted[i] == CanonicalPred(p);
      }
      assert SpellPreds(CanonicalRefinement(r), floats) == Some(sorted);
    }
  }

  lemma SpellRecordGood(body: BodyForm, floats: Floats)
    requires body.RecordForm? && forall f | f in body.fields :: GoodField(SpellField(f, floats), floats)
    ensures GoodBody(SpellBody(body, floats), floats)
  {
    hide FieldKey, GoodField, SpellField;
    var spelled := SpellFields(body, floats);
    var sorted := SortBy(spelled, FieldKey(floats));
    SameMembers(sorted, spelled);
    forall i | 0 <= i < |sorted| ensures GoodField(sorted[i], floats) {
      assert sorted[i] in spelled;
      var f := SpelledOf(body, sorted[i], floats);
    }
  }

  lemma SpellSumGood(body: BodyForm, floats: Floats)
    requires body.SumForm? && forall v | v in body.variants :: GoodVariant(SpellVariant(v, floats), floats)
    ensures GoodBody(SpellBody(body, floats), floats)
  {
    hide VariantKey, GoodVariant, SpellVariant;
    var spelled := SpellVariants(body, floats);
    var sorted := SortBy(spelled, VariantKey(floats));
    SameMembers(sorted, spelled);
    forall i | 0 <= i < |sorted| ensures GoodVariant(sorted[i], floats) {
      assert sorted[i] in spelled;
      var v := SpelledVariantOf(body, sorted[i], floats);
    }
  }

  ghost predicate GoodBinding(bound: Binding, floats: Floats) {
    forall n | n in bound :: GoodForm(bound[n], floats)
  }

  lemma {:induction false} ZipGood(params: seq<string>, forms: seq<Form>, floats: Floats)
    requires forall i | 0 <= i < |forms| :: GoodForm(forms[i], floats)
    ensures GoodBinding(Zip(params, forms), floats)
  {
    hide GoodForm;
    if params != [] && forms != [] { ZipGood(params[1..], forms[1..], floats); }
  }

  lemma {:induction false} CanonGood(t: TypeRef, types: Table, seen: set<string>, bound: Binding, floats: Floats)
    requires GoodTable(types, floats) && GoodRef(t, types) && GoodBinding(bound, floats)
    ensures GoodForm(Canon(t, types, seen, bound), floats)
    decreases types.Keys - seen, 1, t, 1
  {
    hide GoodTable, CanonNamed;
    match t
    case WrapRef(w, a) => CanonGood(a, types, seen, bound, floats);
    case PairRef(p, a, b) =>
      CanonGood(a, types, seen, bound, floats);
      CanonGood(b, types, seen, bound, floats);
    case AppRef(n, args) => CanonAppGood(t, types, seen, bound, floats);
    case NamedRef(n) => if n !in bound { CanonNamedGood(n, types, seen, bound, floats); }
    case _ =>
  }

  lemma {:induction false} CanonAppGood(t: TypeRef, types: Table, seen: set<string>, bound: Binding, floats: Floats)
    requires t.AppRef? && GoodTable(types, floats) && GoodRef(t, types) && GoodBinding(bound, floats)
    ensures GoodForm(Canon(t, types, seen, bound), floats)
    decreases types.Keys - seen, 1, t, 0
  {
    hide GoodTable, CanonNamed;
    var forms := CanonAll(t.args, types, seen, bound);
    forall i | 0 <= i < |forms| ensures GoodForm(forms[i], floats) {
      CanonGood(t.args[i], types, seen, bound, floats);
    }
    var inner := if t.name in types then Zip(types[t.name].typeParams, forms) else map[];
    if t.name in types { ZipGood(types[t.name].typeParams, forms, floats); }
    CanonNamedGood(t.name, types, seen, inner, floats);
  }

  lemma {:induction false} CanonNamedGood(n: string, types: Table, seen: set<string>, bound: Binding, floats: Floats)
    requires GoodTable(types, floats) && GoodName(n, types) && GoodBinding(bound, floats)
    ensures GoodForm(CanonNamed(n, types, seen, bound), floats)
    decreases types.Keys - seen, 0
  {
    if n !in seen && n in types { CanonBodyGood(types[n].body, types, seen + {n}, bound, floats); }
  }

  lemma {:induction false} CanonBodyGood(body: Body, types: Table, seen: set<string>, bound: Binding, floats: Floats)
    requires GoodTable(types, floats) && GoodDecl(body, types, floats) && GoodBinding(bound, floats)
    ensures GoodBody(SpellBody(CanonBody(body, types, seen, bound), floats), floats)
    decreases types.Keys - seen, 3
  {
    hide GoodTable, GoodBinding, Canon, SpellPreds, CanonicalRefinement, GoodPreds, CanonField, CanonVariant;
    var form := CanonBody(body, types, seen, bound);
    match body
    case Refined(b, r) => SpellPredsGood(r, floats);
    case Opaque(b, r) =>
    case Record(fs) =>
      forall f | f in form.fields ensures GoodField(SpellField(f, floats), floats) {
        var i :| 0 <= i < |fs| && f == CanonField(fs[i], types, seen, bound);
        CanonFieldGood(fs[i], types, seen, bound, floats);
      }
      SpellRecordGood(form, floats);
    case Sum(vs) =>
      forall v | v in form.variants ensures GoodVariant(SpellVariant(v, floats), floats) {
        var i :| 0 <= i < |vs| && v == CanonVariant(vs[i], types, seen, bound);
        CanonVariantGood(vs[i], types, seen, bound, floats);
      }
      SpellSumGood(form, floats);
  }

  lemma {:induction false} CanonFieldGood(f: Field, types: Table, seen: set<string>, bound: Binding, floats: Floats)
    requires GoodTable(types, floats) && GoodBinding(bound, floats)
    requires Identifier(f.name) && GoodRef(f.typ, types) && GoodBounds(f.refinement, floats)
    ensures GoodField(SpellField(CanonField(f, types, seen, bound), floats), floats)
    decreases types.Keys - seen, 2
  {
    hide GoodTable, GoodBinding, Canon, SpellPreds, CanonicalRefinement, GoodPreds;
    CanonGood(f.typ, types, seen, bound, floats);
    SpellPredsGood(f.refinement, floats);
  }

  lemma {:induction false} CanonVariantGood(v: Variant, types: Table, seen: set<string>, bound: Binding, floats: Floats)
    requires GoodTable(types, floats) && GoodBinding(bound, floats)
    requires Identifier(v.name) && forall k | 0 <= k < |v.payload| :: GoodRef(v.payload[k].typ, types)
    ensures GoodVariant(SpellVariant(CanonVariant(v, types, seen, bound), floats), floats)
    decreases types.Keys - seen, 2
  {
    hide GoodTable, GoodBinding, Canon;
    var ts := PayloadTypes(v.payload);
    forall k | 0 <= k < |ts| ensures GoodForm(Canon(ts[k], types, seen, bound), floats) {
      CanonGood(ts[k], types, seen, bound, floats);
    }
  }

  // ----- the text of a contract -----

  /** The text of a type's canonical form: `canon_type` as it is hashed. */
  ghost function CanonText(t: TypeRef, types: Table, floats: Floats): string {
    Text(Spell(Canon(t, types, {}, map[]), floats), floats)
  }

  /** Rendering tells all forms apart. */
  lemma TextIffForm(f: Form, g: Form, floats: Floats)
    requires Faithful(floats) && GoodForm(f, floats) && GoodForm(g, floats)
    ensures Text(Spell(f, floats), floats) == Text(Spell(g, floats), floats) <==> f == g
  {
    hide Faithful, Good, Text, Spell, Forget;
    if Text(Spell(f, floats), floats) == Text(Spell(g, floats), floats) {
      TextTells(Spell(f, floats), Spell(g, floats), floats);
      ForgetSpell(f, floats);
      ForgetSpell(g, floats);
    }
  }

  /** The text of what the type reaches can be read. */
  ghost predicate Readable(t: TypeRef, a: Table, floats: Floats) {
    var types := ContractReach.Needed(t, a);
    GoodTable(types, floats) && GoodRef(t, types)
  }

  /** The text of a type tells its form. */
  lemma CanonTextIffForm(t: TypeRef, u: TypeRef, a: Table, b: Table, floats: Floats)
    requires Faithful(floats) && Readable(t, a, floats) && Readable(u, b, floats)
    ensures GoodForm(Canon(t, a, {}, map[]), floats) && GoodForm(Canon(u, b, {}, map[]), floats)
    ensures CanonText(t, a, floats) == CanonText(u, b, floats) <==> Canon(t, a, {}, map[]) == Canon(u, b, {}, map[])
  {
    hide Faithful, GoodTable, GoodRef, GoodForm, Canon, Spell, Text, ContractReach.Needed;
    ContractReach.CanonNeeded(t, a);
    ContractReach.CanonNeeded(u, b);
    CanonGood(t, ContractReach.Needed(t, a), {}, map[], floats);
    CanonGood(u, ContractReach.Needed(u, b), {}, map[], floats);
    TextIffForm(Canon(t, a, {}, map[]), Canon(u, b, {}, map[]), floats);
  }

  /** Two types have one text exactly when their reachable declaration graphs are equal: neither cutting cycles,
      nor sorting, nor printing loses anything. */
  lemma CanonTextIffSameGraph(t: TypeRef, u: TypeRef, a: Table, b: Table, floats: Floats)
    requires ParameterFree(ContractReach.Needed(t, a)) && ParameterFree(ContractReach.Needed(u, b))
    requires Faithful(floats) && Readable(t, a, floats) && Readable(u, b, floats)
    ensures CanonText(t, a, floats) == CanonText(u, b, floats) <==> EqualGraphs(t, u, a, b)
  {
    hide Faithful, Readable, CanonText, Canon, EqualGraphs, ParameterFree;
    CanonTextIffForm(t, u, a, b, floats);
    ContractReach.CanonIffSameGraph(t, u, a, b);
  }

  /** With generic declarations: two types have one text exactly when they have one shape. */
  lemma CanonTextIffSameShape(t: TypeRef, u: TypeRef, a: Table, b: Table, floats: Floats)
    requires ContractReach.Expandable(t, a) && ContractReach.Expandable(u, b)
    requires Faithful(floats) && Readable(t, a, floats) && Readable(u, b, floats)
    ensures CanonText(t, a, floats) == CanonText(u, b, floats) <==>
            ContractShapes.SameShape(ContractUnfold.Start(t), ContractUnfold.Start(u), a, b)
  {
    hide Faithful, Readable, CanonText, Canon, ContractReach.Expandable, ContractShapes.SameShape;
    CanonTextIffForm(t, u, a, b, floats);
    ContractReach.CanonIffSameShape(t, u, a, b);
  }
}
