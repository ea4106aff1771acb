/** The text a contract form is rendered to and hashed as (`canon_type_in`, `canon_named_in`,
    `canon_refinement`, `canon_predicate`).

    A `Spelled` tree is a form with its fields, variants and predicates in the order they are printed in. Its
    text can be read back in one way only. */
module ContractText {
  import opened Types

  datatype Spelled =
    | BaseS(base: BaseType)
    | AtomS(atom: Atom)
    | WrapS(wrapper: Wrapper, inner: Spelled)
    | PairS(pairing: Pairing, first: Spelled, second: Spelled)
    | NonBoundaryS
    | AppS(head: Spelled, args: seq<Spelled>)
    | BackReferenceS(name: string)
    | UndeclaredS(name: string)
    | DeclaredS(name: string, body: SpelledBody)

  datatype SpelledBody =
    | RefinedS(base: BaseType, preds: Option<seq<Pred>>)
    | OpaqueS(base: BaseType)
    | RecordS(fields: seq<SpelledField>)
    | SumS(variants: seq<SpelledVariant>)

  datatype SpelledField = SpelledField(name: string, typ: Spelled, preds: Option<seq<Pred>>)

  datatype SpelledVariant = SpelledVariant(name: string, payload: seq<Spelled>)

  // ----- the text -----

  function BaseText(b: BaseType): string {
    match b
    case Int => "Int"
    case String => "String"
    case Bool => "Bool"
    case Float => "Float"
    case Duration => "Duration"
    case Instant => "Instant"
    case Bytes => "Bytes"
  }

  function AtomText(a: Atom): string {
    match a
    case QueueResult => "QueueResult"
    case Asset => "Asset"
    case ValidationError => "ValidationError"
    case JsonError => "JsonError"
    case Unit => "()"
    case BoundaryRejection => ""
  }

  function WrapperText(w: Wrapper): string {
    if w == ListOf then "List" else if w == OptionOf then "Option" else if w == HttpResultOf then "HttpResult" else ""
  }

  function PairingText(p: Pairing): string {
    if p == ResultOf then "Result" else "Map"
  }

  function Digit(n: nat): char
    requires n < 10
  {
    "0123456789"[n]
  }

  function NatText(n: nat): string {
    if n < 10 then [Digit(n)] else NatText(n / 10) + [Digit(n % 10)]
  }

  function IntText(n: int): string {
    if n < 0 then "-" + NatText(-n) else NatText(n)
  }

  /** A pattern between quotes: a quote or a backslash inside is escaped, and so are line breaks, tabs and zeros. */
  function QuotedChar(c: char): string {
    if c == '"' then "\\\"" else if c == '\\' then "\\\\" else if c == '\n' then "\\n"
    else if c == '\r' then "\\r" else if c == '\t' then "\\t" else if c == '\0' then "\\0" else [c]
  }

  function QuotedText(s: string): string {
    if s == "" then "\"" else QuotedChar(s[0]) + QuotedText(s[1..])
  }

  /** How floats are printed, and which values they can have. */
  datatype Floats = Floats(text: real -> string, values: iset<real>)

  /** A float's text consists of digits, points and minus signs and tells the value. */
  ghost predicate Faithful(floats: Floats) {
    (forall r | r in floats.values :: Only(floats.text(r), NumberChar)) &&
    (forall r, s | r in floats.values && s in floats.values && floats.text(r) == floats.text(s) :: r == s)
  }

  function PredName(p: Pred): string {
    match p
    case Matches(_) => "Matches"
    case InRange(_, _) => "InRange"
    case InRangeF(_, _) => "InRangeF"
    case MinLength(_) => "MinLength"
    case MaxLength(_) => "MaxLength"
    case Length(_) => "Length"
    case NonNegative => "NonNegative"
    case Positive => "Positive"
    case NonEmpty => "MinLength"
  }

  function PredTail(p: Pred, floats: Floats): string {
    match p
    case Matches(s) => "(\"" + (QuotedText(s) + ")")
    case InRange(a, b) => "(" + (IntText(a) + (", " + (IntText(b) + ")")))
    case InRangeF(a, b) => "(" + (floats.text(a) + (", " + (floats.text(b) + ")")))
    case MinLength(n) => "(" + (IntText(n) + ")")
    case MaxLength(n) => "(" + (IntText(n) + ")")
    case Length(n) => "(" + (IntText(n) + ")")
    case NonNegative => ""
    case Positive => ""
    case NonEmpty => "(1)"
  }

  function PredText(p: Pred, floats: Floats): string {
    PredName(p) + PredTail(p, floats)
  }

  function PredsText(ps: seq<Pred>, floats: Floats): string
    decreases ps, 0
  {
    if ps == [] then "" else PredText(ps[0], floats) + MorePreds(ps[1..], floats)
  }

  function MorePreds(ps: seq<Pred>, floats: Floats): string
    decreases ps, 1
  {
    if ps == [] then "" else ", " + PredsText(ps, floats)
  }

  function RefinementText(preds: Option<seq<Pred>>, floats: Floats): string {
    match preds
    case None => ""
    case Some(ps) => "where " + PredsText(ps, floats)
  }

  function Text(s: Spelled, floats: Floats): string {
    match s
    case BaseS(b) => BaseText(b)
    case AtomS(a) => AtomText(a)
    case WrapS(w, a) => WrapperText(w) + ("[" + (Text(a, floats) + "]"))
    case PairS(p, a, b) => PairingText(p) + ("[" + (Text(a, floats) + (", " + (Text(b, floats) + "]"))))
    case NonBoundaryS => "<non-boundary>"
    case AppS(h, args) => Text(h, floats) + ("[" + (ListText(args, floats) + "]"))
    case BackReferenceS(n) => "@" + n
    case UndeclaredS(n) => n
    case DeclaredS(n, body) => n + BodyText(body, floats)
  }

  function ListText(ss: seq<Spelled>, floats: Floats): string
    decreases ss, 0
  {
    if ss == [] then "" else Text(ss[0], floats) + MoreText(ss[1..], floats)
  }

  function MoreText(ss: seq<Spelled>, floats: Floats): string
    decreases ss, 1
  {
    if ss == [] then "" else ", " + ListText(ss, floats)
  }

  function BodyText(body: SpelledBody, floats: Floats): string {
    match body
    case RefinedS(b, preds) => BaseText(b) + (" " + RefinementText(preds, floats))
    case OpaqueS(b) => BaseText(b) + " opaque"
    case RecordS(fs) => "{" + (FieldsText(fs, floats) + "}")
    case SumS(vs) => "|" + VariantsText(vs, floats)
  }

  /** An inline refinement, behind a field's type. */
  function InlineText(preds: Option<seq<Pred>>, floats: Floats): string {
    if preds.None? then "" else " " + RefinementText(preds, floats)
  }

  function FieldText(f: SpelledField, floats: Floats): string {
    f.name + (": " + (Text(f.typ, floats) + InlineText(f.preds, floats)))
  }

  function FieldsText(fs: seq<SpelledField>, floats: Floats): string
    decreases fs, 0
  {
    if fs == [] then "" else FieldText(fs[0], floats) + MoreFields(fs[1..], floats)
  }

  function MoreFields(fs: seq<SpelledField>, floats: Floats): string
    decreases fs, 1
  {
    if fs == [] then "" else ", " + FieldsText(fs, floats)
  }

  function PayloadText(ss: seq<Spelled>, floats: Floats): string
    decreases ss, 1
  {
    if ss == [] then "" else "(" + (ListText(ss, floats) + ")")
  }

  function VariantText(v: SpelledVariant, floats: Floats): string {
    v.name + PayloadText(v.payload, floats)
  }

  function VariantsText(vs: seq<SpelledVariant>, floats: Floats): string
    decreases vs, 0
  {
    if vs == [] then "" else VariantText(vs[0], floats) + MoreVariants(vs[1..], floats)
  }

  function MoreVariants(vs: seq<SpelledVariant>, floats: Floats): string
    decreases vs, 1
  {
    if vs == [] then "" else "|" + VariantsText(vs, floats)
  }

  // ----- runs of characters of one kind -----

  predicate NameChar(c: char) {
    'a' <= c <= 'z' || 'A' <= c <= 'Z' || '0' <= c <= '9' || c == '_'
  }

  predicate NumberChar(c: char) {
    '0' <= c <= '9' || c == '-' || c == '.'
  }

  predicate Only(s: string, kind: char -> bool) {
    forall i | 0 <= i < |s| :: kind(s[i])
  }

  /** The text does not go on with a character of this kind. */
  predicate Stops(x: string, kind: char -> bool) {
    x == "" || !kind(x[0])
  }

  predicate Starts(x: string, chars: string) {
    x != "" && x[0] in chars
  }

  function Run(s: string, kind: char -> bool): (r: string)
    ensures |r| <= |s|
  {
    if Stops(s, kind) then "" else [s[0]] + Run(s[1..], kind)
  }

  lemma {:induction false} RunOf(u: string, x: string, kind: char -> bool)
    requires Only(u, kind) && Stops(x, kind)
    ensures Run(u + x, kind) == u
  {
    if u != "" {
      assert (u + x)[1..] == u[1..] + x;
      RunOf(u[1..], x, kind);
    } else {
      assert u + x == x;
    }
  }

  lemma TailsEqual(u: string, x: string, y: string)
    requires u + x == u + y
    ensures x == y
  {
    assert x == (u + x)[|u|..] && y == (u + y)[|u|..];
  }

  lemma RunsRead(u: string, v: string, x: string, y: string, kind: char -> bool)
    requires Only(u, kind) && Only(v, kind) && Stops(x, kind) && Stops(y, kind) && u + x == v + y
    ensures u == v && x == y
  {
    RunOf(u, x, kind);
    RunOf(v, y, kind);
    TailsEqual(u, x, y);
  }

  lemma Regroup(x: string, y: string, z: string)
    ensures (x + y) + z == x + (y + z)
  {
  }

  // ----- numbers, patterns and predicates -----

  lemma {:induction false} NatTextOnly(n: nat)
    ensures Only(NatText(n), NumberChar) && NatText(n) != "" && NatText(n)[0] != '-'
  {
    if n >= 10 { NatTextOnly(n / 10); }
  }

  lemma NatTextLast(n: nat)
    ensures var s := NatText(n); s != "" && s[|s| - 1] == Digit(n % 10) && (|s| == 1 <==> n < 10)
    ensures n >= 10 ==> NatText(n)[..|NatText(n)| - 1] == NatText(n / 10)
  {
    if n >= 10 { NatTextOnly(n / 10); }
  }

  lemma {:induction false} NatTextTells(m: nat, n: nat)
    requires NatText(m) == NatText(n)
    ensures m == n
  {
    hide NatText;
    NatTextLast(m);
    NatTextLast(n);
    if m >= 10 && n >= 10 { NatTextTells(m / 10, n / 10); }
  }

  lemma IntTextOnly(n: int)
    ensures Only(IntText(n), NumberChar)
  {
    NatTextOnly(if n < 0 then -n else n);
  }

  lemma IntTextTells(m: int, n: int)
    requires IntText(m) == IntText(n)
    ensures m == n
  {
    hide NatText, Only;
    NatTextOnly(if m < 0 then -m else m);
    NatTextOnly(if n < 0 then -n else n);
    if m < 0 && n < 0 {
      TailsEqual("-", NatText(-m), NatText(-n));
      NatTextTells(-m, -n);
    } else if m >= 0 && n >= 0 {
      NatTextTells(m, n);
    }
  }

  lemma IntRead(m: int, n: int, x: string, y: string)
    requires Stops(x, NumberChar) && Stops(y, NumberChar) && IntText(m) + x == IntText(n) + y
    ensures m == n && x == y
  {
    hide IntText, Only, Stops;
    IntTextOnly(m);
    IntTextOnly(n);
    RunsRead(IntText(m), IntText(n), x, y, NumberChar);
    IntTextTells(m, n);
  }

  lemma {:induction false} QuotedRead(s: string, t: string, x: string, y: string)
    requires QuotedText(s) + x == QuotedText(t) + y
    ensures s == t && x == y
  {
    hide QuotedText, QuotedChar;
    QuotedStart(s, x);
    QuotedStart(t, y);
    if s == "" && t == "" {
      TailsEqual("\"", x, y);
    } else if s != "" && t != "" {
      QuotedCharRead(s[0], t[0], QuotedText(s[1..]) + x, QuotedText(t[1..]) + y);
      QuotedRead(s[1..], t[1..], x, y);
      assert s == [s[0]] + s[1..] && t == [t[0]] + t[1..];
    }
  }

  lemma QuotedStart(s: string, x: string)
    ensures s == "" ==> QuotedText(s) + x == "\"" + x
    ensures s != "" ==> QuotedText(s) + x == QuotedChar(s[0]) + (QuotedText(s[1..]) + x)
    ensures Starts(QuotedText(s) + x, "\"") <==> s == ""
  {
    hide QuotedChar;
    if s != "" {
      QuotedCharStart(s[0]);
      Regroup(QuotedChar(s[0]), QuotedText(s[1..]), x);
    }
  }

  lemma QuotedCharStart(c: char)
    ensures QuotedChar(c) != "" && QuotedChar(c)[0] != '"'
  {
  }

  lemma QuotedCharRead(a: char, b: char, u: string, v: string)
    requires QuotedChar(a) + u == QuotedChar(b) + v
    ensures a == b && u == v
  {
    var s, t := QuotedChar(a) + u, QuotedChar(b) + v;
    assert s[0] == QuotedChar(a)[0] && t[0] == QuotedChar(b)[0];
    if |QuotedChar(a)| == 2 && |QuotedChar(b)| == 2 {
      assert s[1] == QuotedChar(a)[1] && t[1] == QuotedChar(b)[1];
    }
    TailsEqual(QuotedChar(a), u, v);
  }

  predicate GoodPred(p: Pred, floats: Floats) {
    p != NonEmpty && (p.InRangeF? ==> p.lowF in floats.values && p.highF in floats.values)
  }

  lemma PredShape(p: Pred, floats: Floats)
    ensures Only(PredName(p), NameChar) && (BarePred(PredName(p)) || CallPred(PredName(p)))
    ensures if BarePred(PredName(p)) then PredTail(p, floats) == "" else Starts(PredTail(p, floats), "(")
  {
  }

  lemma PredRead(p: Pred, q: Pred, x: string, y: string, floats: Floats)
    requires Faithful(floats) && GoodPred(p, floats) && GoodPred(q, floats)
    requires Stops(x, NameChar) && Stops(y, NameChar)
    requires x != "" ==> x[0] != '('
    requires y != "" ==> y[0] != '('
    requires PredText(p, floats) + x == PredText(q, floats) + y
    ensures p == q && x == y
  {
    var s, t := PredTail(p, floats), PredTail(q, floats);
    Regroup(PredName(p), s, x);
    Regroup(PredName(q), t, y);
    PredShape(p, floats);
    PredShape(q, floats);
    RunsRead(PredName(p), PredName(q), s + x, t + y, NameChar);
    PredTailRead(p, q, x, y, floats);
  }

  lemma PredTailRead(p: Pred, q: Pred, x: string, y: string, floats: Floats)
    requires Faithful(floats) && GoodPred(p, floats) && GoodPred(q, floats)
    requires PredName(p) == PredName(q) && PredTail(p, floats) + x == PredTail(q, floats) + y
    ensures p == q && x == y
  {
    hide Faithful, Stops, Only;
    match p
    case Matches(a) => PatternRead(a, q.pattern, x, y);
    case InRange(a, b) => RangeRead(a, b, q.low, q.high, x, y);
    case InRangeF(a, b) => FloatRangeRead(a, b, q.lowF, q.highF, x, y, floats);
    case MinLength(n) => CountRead(n, q.length, x, y);
    case MaxLength(n) => CountRead(n, q.length, x, y);
    case Length(n) => CountRead(n, q.length, x, y);
    case NonNegative => assert "" + x == x && "" + y == y;
    case Positive => assert "" + x == x && "" + y == y;
    case NonEmpty =>
  }

  lemma PatternRead(s: string, t: string, x: string, y: string)
    requires ("(\"" + (QuotedText(s) + ")")) + x == ("(\"" + (QuotedText(t) + ")")) + y
    ensures s == t && x == y
  {
    Regroup3("(\"", QuotedText(s), ")", x);
    Regroup3("(\"", QuotedText(t), ")", y);
    TailsEqual("(\"", QuotedText(s) + (")" + x), QuotedText(t) + (")" + y));
    QuotedRead(s, t, ")" + x, ")" + y);
    TailsEqual(")", x, y);
  }

  lemma RangeRead(a: int, b: int, c: int, d: int, x: string, y: string)
    requires ("(" + (IntText(a) + (", " + (IntText(b) + ")")))) + x == ("(" + (IntText(c) + (", " + (IntText(d) + ")")))) + y
    ensures a == c && b == d && x == y
  {
    PairTail(IntText(a), IntText(b), x);
    PairTail(IntText(c), IntText(d), y);
    TailsEqual("(", IntText(a) + (", " + (IntText(b) + (")" + x))), IntText(c) + (", " + (IntText(d) + (")" + y))));
    IntRead(a, c, ", " + (IntText(b) + (")" + x)), ", " + (IntText(d) + (")" + y)));
    TailsEqual(", ", IntText(b) + (")" + x), IntText(d) + (")" + y));
    IntRead(b, d, ")" + x, ")" + y);
    TailsEqual(")", x, y);
  }

  lemma FloatRangeRead(a: real, b: real, c: real, d: real, x: string, y: string, floats: Floats)
    requires Faithful(floats) && a in floats.values && b in floats.values && c in floats.values && d in floats.values
    requires ("(" + (floats.text(a) + (", " + (floats.text(b) + ")")))) + x ==
             ("(" + (floats.text(c) + (", " + (floats.text(d) + ")")))) + y
    ensures a == c && b == d && x == y
  {
    var s, t, u, v := floats.text(a), floats.text(b), floats.text(c), floats.text(d);
    PairTail(s, t, x);
    PairTail(u, v, y);
    TailsEqual("(", s + (", " + (t + (")" + x))), u + (", " + (v + (")" + y))));
    RunsRead(s, u, ", " + (t + (")" + x)), ", " + (v + (")" + y)), NumberChar);
    TailsEqual(", ", t + (")" + x), v + (")" + y));
    RunsRead(t, v, ")" + x, ")" + y, NumberChar);
    TailsEqual(")", x, y);
  }

  lemma Regroup3(x: string, y: string, z: string, w: string)
    ensures (x + (y + z)) + w == x + (y + (z + w))
  {
  }

  lemma PairTail(a: string, b: string, x: string)
    ensures ("(" + (a + (", " + (b + ")")))) + x == "(" + (a + (", " + (b + (")" + x))))
  {
  }

  lemma CountRead(m: int, n: int, x: string, y: string)
    requires ("(" + (IntText(m) + ")")) + x == ("(" + (IntText(n) + ")")) + y
    ensures m == n && x == y
  {
    Regroup3("(", IntText(m), ")", x);
    Regroup3("(", IntText(n), ")", y);
    TailsEqual("(", IntText(m) + (")" + x), IntText(n) + (")" + y));
    IntRead(m, n, ")" + x, ")" + y);
    TailsEqual(")", x, y);
  }

  // ----- what may follow -----

  /** `Positive` and `NonNegative` are predicates by their name alone, the others by the parenthesis behind it. */
  predicate BarePred(name: string) {
    name in {"Positive", "NonNegative"}
  }

  predicate CallPred(name: string) {
    name in {"Matches", "InRange", "InRangeF", "MinLength", "MaxLength", "Length"}
  }

  /** The text does not start with a predicate. */
  predicate NotPred(s: string) {
    var name := Run(s, NameChar);
    var rest := s[|name|..];
    (BarePred(name) ==> rest != "" && rest[0] in "{|:") && (CallPred(name) ==> rest == "" || rest[0] != '(')
  }

  /** What can come behind a type: the end, a closing bracket, the next item of a list, or an inline refinement. */
  predicate Ends(x: string) {
    x == "" || x[0] in "])}" || (", " <= x && NotPred(x[2..])) || " where " <= x
  }

  /** Behind the head of an application come its arguments. */
  predicate HeadEnds(x: string) {
    Ends(x) || (x != "" && x[0] == '[')
  }

  lemma PredIsPred(p: Pred, x: string, floats: Floats)
    requires Stops(x, NameChar) && (x != "" ==> x[0] !in "({|:")
    ensures !NotPred(PredText(p, floats) + x)
  {
    hide PredName, PredTail, Only, BarePred, CallPred;
    var name, tail := PredName(p), PredTail(p, floats);
    PredShape(p, floats);
    Regroup(name, tail, x);
    RunOf(name, tail + x, NameChar);
    assert (name + (tail + x))[|name|..] == tail + x;
    if tail == "" { assert tail + x == x; }
  }

  predicate GoodPreds(ps: seq<Pred>, floats: Floats) {
    forall i | 0 <= i < |ps| :: GoodPred(ps[i], floats)
  }

  /** What is behind a list of predicates does not look like another one. */
  lemma MorePredsStops(ps: seq<Pred>, x: string, floats: Floats)
    requires HeadEnds(x)
    ensures var s := MorePreds(ps, floats) + x; Stops(s, NameChar) && (s != "" ==> s[0] !in "({|:")
  {
    if ps == [] { assert MorePreds(ps, floats) + x == x; }
  }

  lemma {:induction false} PredsRead(ps: seq<Pred>, qs: seq<Pred>, x: string, y: string, floats: Floats)
    requires Faithful(floats) && GoodPreds(ps, floats) && GoodPreds(qs, floats)
    requires HeadEnds(x) && HeadEnds(y) && PredsText(ps, floats) + x == PredsText(qs, floats) + y
    ensures ps == qs && x == y
    decreases ps, 0
  {
    if ps == [] || qs == [] {
      PredsStart(ps, x, floats);
      PredsStart(qs, y, floats);
    } else {
      var u, v := MorePreds(ps[1..], floats), MorePreds(qs[1..], floats);
      Regroup(PredText(ps[0], floats), u, x);
      Regroup(PredText(qs[0], floats), v, y);
      MorePredsStops(ps[1..], x, floats);
      MorePredsStops(qs[1..], y, floats);
      PredRead(ps[0], qs[0], u + x, v + y, floats);
      MorePredsRead(ps[1..], qs[1..], x, y, floats);
    }
  }

  lemma PredsStart(ps: seq<Pred>, x: string, floats: Floats)
    requires HeadEnds(x)
    ensures ps == [] ==> PredsText(ps, floats) + x == x && Stops(x, NameChar)
    ensures ps != [] ==> !Stops(PredsText(ps, floats) + x, NameChar)
  {
  }

  lemma {:induction false} MorePredsRead(ps: seq<Pred>, qs: seq<Pred>, x: string, y: string, floats: Floats)
    requires Faithful(floats) && GoodPreds(ps, floats) && GoodPreds(qs, floats)
    requires HeadEnds(x) && HeadEnds(y) && MorePreds(ps, floats) + x == MorePreds(qs, floats) + y
    ensures ps == qs && x == y
    decreases ps, 1
  {
    if ps != [] && qs != [] {
      Regroup(", ", PredsText(ps, floats), x);
      Regroup(", ", PredsText(qs, floats), y);
      TailsEqual(", ", PredsText(ps, floats) + x, PredsText(qs, floats) + y);
      PredsRead(ps, qs, x, y, floats);
    } else if ps != [] {
      assert MorePreds(qs, floats) + y == y;
      MorePredsNotItem(ps, x, y, floats);
    } else if qs != [] {
      assert MorePreds(ps, floats) + x == x;
      MorePredsNotItem(qs, y, x, floats);
    } else {
      assert "" + x == x && "" + y == y;
    }
  }

  lemma MorePredsNotItem(ps: seq<Pred>, x: string, y: string, floats: Floats)
    requires ps != [] && HeadEnds(x) && HeadEnds(y)
    ensures MorePreds(ps, floats) + x != y
  {
    var more := MorePreds(ps[1..], floats);
    MorePredsStops(ps[1..], x, floats);
    PredIsPred(ps[0], more + x, floats);
    Regroup(", ", PredsText(ps, floats), x);
    Regroup(PredText(ps[0], floats), more, x);
    var whole := ", " + (PredsText(ps, floats) + x);
    assert whole[2..] == PredsText(ps, floats) + x && whole[0] == ',';
  }

  // ----- the names a form can have -----

  const BUILT_IN: set<string> :=
    {"Int", "String", "Bool", "Float", "Duration", "Instant", "Bytes", "QueueResult", "Asset", "ValidationError",
     "JsonError", "List", "Option", "HttpResult", "Result", "Map"}

  predicate Identifier(n: string) {
    n != "" && Only(n, NameChar)
  }

  predicate TypeName(n: string) {
    Identifier(n) && n !in BUILT_IN
  }

  predicate HasSuffix(n: string, suffix: string) {
    |suffix| < |n| && n[|n| - |suffix|..] == suffix
  }

  /** The name is something followed by the name of a base type. */
  predicate EndsWithBase(n: string) {
    exists b :: HasSuffix(n, BaseText(b))
  }

  predicate IsHead(s: Spelled) {
    s.BackReferenceS? || s.UndeclaredS? || s.DeclaredS?
  }

  /** Names are identifiers and none of the built-in ones, and a name without a declaration is no bare predicate
      and does not end with the name of a base type. */
  predicate Good(s: Spelled, floats: Floats) {
    match s
    case BaseS(_) => true
    case AtomS(a) => a != BoundaryRejection
    case WrapS(w, a) => w in {ListOf, OptionOf, HttpResultOf} && Good(a, floats)
    case PairS(_, a, b) => Good(a, floats) && Good(b, floats)
    case NonBoundaryS => true
    case AppS(h, args) => IsHead(h) && Good(h, floats) && forall i | 0 <= i < |args| :: Good(args[i], floats)
    case BackReferenceS(n) => TypeName(n)
    case UndeclaredS(n) => TypeName(n) && !BarePred(n) && !EndsWithBase(n)
    case DeclaredS(n, body) => TypeName(n) && GoodBody(body, floats)
  }

  predicate GoodBody(body: SpelledBody, floats: Floats) {
    match body
    case RefinedS(_, preds) => preds.Some? ==> GoodPreds(preds.value, floats)
    case OpaqueS(_) => true
    case RecordS(fs) => forall i | 0 <= i < |fs| :: GoodField(fs[i], floats)
    case SumS(vs) => forall i | 0 <= i < |vs| :: GoodVariant(vs[i], floats)
  }

  predicate GoodField(f: SpelledField, floats: Floats) {
    Identifier(f.name) && Good(f.typ, floats) && (f.preds.Some? ==> GoodPreds(f.preds.value, floats))
  }

  predicate GoodVariant(v: SpelledVariant, floats: Floats) {
    Identifier(v.name) && forall i | 0 <= i < |v.payload| :: Good(v.payload[i], floats)
  }

  // ----- how a form's text begins -----

  function Lead(s: Spelled): string {
    match s
    case BaseS(b) => BaseText(b)
    case AtomS(a) => if a == Unit then "" else AtomText(a)
    case WrapS(w, _) => WrapperText(w)
    case PairS(p, _, _) => PairingText(p)
    case NonBoundaryS => ""
    case AppS(h, _) => Lead(h)
    case BackReferenceS(n) => ""
    case UndeclaredS(n) => n
    case DeclaredS(n, body) =>
      match body
      case RefinedS(b, _) => n + BaseText(b)
      case OpaqueS(b) => n + BaseText(b)
      case RecordS(_) => n
      case SumS(_) => n
  }

  /** What is behind the letters a form's text begins with, when the text goes on with `x`. */
  function Rest(s: Spelled, x: string, floats: Floats): string {
    match s
    case BaseS(b) => x
    case AtomS(a) => if a == Unit then "()" + x else x
    case WrapS(w, a) => "[" + (Text(a, floats) + ("]" + x))
    case PairS(p, a, b) => "[" + (Text(a, floats) + (", " + (Text(b, floats) + ("]" + x))))
    case NonBoundaryS => "<non-boundary>" + x
    case AppS(h, args) => Rest(h, "[" + (ListText(args, floats) + ("]" + x)), floats)
    case BackReferenceS(n) => "@" + (n + x)
    case UndeclaredS(n) => x
    case DeclaredS(n, body) =>
      match body
      case RefinedS(b, preds) => " " + (RefinementText(preds, floats) + x)
      case OpaqueS(b) => " opaque" + x
      case RecordS(fs) => "{" + (FieldsText(fs, floats) + ("}" + x))
      case SumS(vs) => "|" + (VariantsText(vs, floats) + x)
  }

  lemma {:induction false} TextBegins(s: Spelled, x: string, floats: Floats)
    requires Good(s, floats)
    ensures Text(s, floats) + x == Lead(s) + Rest(s, x, floats)
  {
    match s
    case AppS(h, args) =>
      var tail := "[" + (ListText(args, floats) + "]");
      Regroup(Text(h, floats), tail, x);
      Regroup3("[", ListText(args, floats), "]", x);
      TextBegins(h, "[" + (ListText(args, floats) + ("]" + x)), floats);
    case DeclaredS(n, body) => BodyBegins(n, body, x, floats);
    case WrapS(w, a) =>
      Regroup(WrapperText(w), "[" + (Text(a, floats) + "]"), x);
      Regroup3("[", Text(a, floats), "]", x);
    case PairS(p, a, b) =>
      var u, v := Text(a, floats), Text(b, floats);
      Regroup(PairingText(p), "[" + (u + (", " + (v + "]"))), x);
      Regroup3("[", u, ", " + (v + "]"), x);
      Regroup3(", ", v, "]", x);
    case BackReferenceS(n) => Regroup("@", n, x);
    case AtomS(a) => assert "" + x == x && "" + ("()" + x) == "()" + x;
    case NonBoundaryS => assert "" + ("<non-boundary>" + x) == "<non-boundary>" + x;
    case _ =>
  }

  lemma BodyBegins(n: string, body: SpelledBody, x: string, floats: Floats)
    ensures Text(DeclaredS(n, body), floats) + x == Lead(DeclaredS(n, body)) + Rest(DeclaredS(n, body), x, floats)
  {
    Regroup(n, BodyText(body, floats), x);
    match body
    case RefinedS(b, preds) =>
      var r := RefinementText(preds, floats);
      Regroup(BaseText(b), " " + r, x);
      Regroup(" ", r, x);
      Regroup(n, BaseText(b), " " + (r + x));
    case OpaqueS(b) =>
      Regroup(BaseText(b), " opaque", x);
      Regroup(n, BaseText(b), " opaque" + x);
    case RecordS(fs) => Regroup3("{", FieldsText(fs, floats), "}", x);
    case SumS(vs) => Regroup("|", VariantsText(vs, floats), x);
  }

  lemma OnlyAppend(u: string, v: string)
    requires Only(u, NameChar) && Only(v, NameChar)
    ensures Only(u + v, NameChar)
  {
  }

  lemma BuiltInOnly()
    ensures forall b :: Only(BaseText(b), NameChar)
    ensures forall a | a != Unit :: Only(AtomText(a), NameChar)
    ensures forall w :: Only(WrapperText(w), NameChar)
    ensures forall p :: Only(PairingText(p), NameChar)
    ensures Only("", NameChar)
  {
  }

  lemma {:induction false} LeadOnly(s: Spelled, floats: Floats)
    requires Good(s, floats)
    ensures Only(Lead(s), NameChar)
  {
    hide Only;
    BuiltInOnly();
    match s
    case AppS(h, args) => LeadOnly(h, floats);
    case DeclaredS(n, body) => if body.RefinedS? || body.OpaqueS? { OnlyAppend(n, BaseText(body.base)); }
    case UndeclaredS(n) =>
    case _ =>
  }

  lemma {:induction false} RestStops(s: Spelled, x: string, floats: Floats)
    requires Good(s, floats) && Stops(x, NameChar)
    ensures Stops(Rest(s, x, floats), NameChar)
  {
    hide Text, ListText, FieldsText, VariantsText, RefinementText;
    match s
    case AppS(h, args) => RestStops(h, "[" + (ListText(args, floats) + ("]" + x)), floats);
    case _ =>
  }

  lemma LeadsEqual(s: Spelled, t: Spelled, x: string, y: string, floats: Floats)
    requires Good(s, floats) && Good(t, floats) && Stops(x, NameChar) && Stops(y, NameChar)
    requires Text(s, floats) + x == Text(t, floats) + y
    ensures Lead(s) == Lead(t) && Rest(s, x, floats) == Rest(t, y, floats)
  {
    TextBegins(s, x, floats);
    TextBegins(t, y, floats);
    LeadOnly(s, floats);
    LeadOnly(t, floats);
    RestStops(s, x, floats);
    RestStops(t, y, floats);
    RunsRead(Lead(s), Lead(t), Rest(s, x, floats), Rest(t, y, floats), NameChar);
  }

  /** A name with a base type's name behind it shows which base type and which name. */
  lemma BaseSuffix(m: string, n: string, b: BaseType, c: BaseType)
    requires m + BaseText(b) == n + BaseText(c)
    ensures b == c && m == n
  {
    var s := m + BaseText(b);
    assert s[|s| - 1] == BaseText(b)[|BaseText(b)| - 1] && s[|s| - 1] == BaseText(c)[|BaseText(c)| - 1];
    assert s[|s| - 2] == BaseText(b)[|BaseText(b)| - 2] && s[|s| - 2] == BaseText(c)[|BaseText(c)| - 2];
    assert s[|s| - 3] == BaseText(b)[|BaseText(b)| - 3] && s[|s| - 3] == BaseText(c)[|BaseText(c)| - 3];
    assert b == c;
    assert m == s[..|s| - |BaseText(b)|] && n == s[..|s| - |BaseText(b)|];
  }

  lemma SuffixEnd(n: string, suffix: string, k: nat)
    requires HasSuffix(n, suffix) && 0 < k <= |suffix|
    ensures |suffix| < |n| && n[|n| - k] == suffix[|suffix| - k]
  {
    assert n[|n| - k] == n[|n| - |suffix|..][|suffix| - k];
  }

  lemma BuiltInSuffix(n: string)
    requires n in BUILT_IN
    ensures !EndsWithBase(n)
  {
    hide HasSuffix;
    forall b ensures !HasSuffix(n, BaseText(b)) {
      if HasSuffix(n, BaseText(b)) {
        var s := BaseText(b);
        SuffixEnd(n, s, 1);
        SuffixEnd(n, s, 2);
        SuffixEnd(n, s, 3);
        assert false;
      }
    }
  }

  predicate Headed(s: Spelled) {
    IsHead(s) || s.AppS?
  }

  lemma SuffixedName(n: string, b: BaseType)
    requires n != ""
    ensures EndsWithBase(n + BaseText(b)) && !BarePred(n + BaseText(b))
  {
    var s := n + BaseText(b);
    assert s[|s| - |BaseText(b)|..] == BaseText(b);
    assert HasSuffix(s, BaseText(b));
    SuffixEnd(s, BaseText(b), 1);
  }

  /** The letters a built-in type begins with are never those a name begins with. */
  lemma {:induction false} LeadTells(s: Spelled, x: string, floats: Floats)
    requires Good(s, floats)
    ensures Headed(s) ==> Lead(s) !in BUILT_IN && (Lead(s) == "" ==> Starts(Rest(s, x, floats), "@"))
    ensures !Headed(s) ==> Lead(s) in BUILT_IN || (Lead(s) == "" && Starts(Rest(s, x, floats), "(<"))
  {
    hide Text, ListText, FieldsText, VariantsText, RefinementText, EndsWithBase, Only, Good;
    GoodParts(s, floats);
    match s
    case AppS(h, args) => LeadTells(h, "[" + (ListText(args, floats) + ("]" + x)), floats);
    case DeclaredS(n, body) =>
      if body.RefinedS? || body.OpaqueS? {
        SuffixedName(n, body.base);
        if n + BaseText(body.base) in BUILT_IN { BuiltInSuffix(n + BaseText(body.base)); }
      }
    case _ =>
  }

  lemma GoodParts(s: Spelled, floats: Floats)
    requires Good(s, floats)
    ensures IsHead(s) ==> s.name != "" && s.name !in BUILT_IN
    ensures s.AppS? ==> IsHead(s.head) && Good(s.head, floats)
    ensures s.AtomS? ==> s.atom != BoundaryRejection
    ensures s.WrapS? ==> s.wrapper in {ListOf, OptionOf, HttpResultOf}
  {
  }

  /** A type is never taken for a predicate. */
  lemma {:induction false} LeadNoPred(s: Spelled, x: string, floats: Floats)
    requires Good(s, floats) && (x != "" ==> x[0] != '(')
    ensures BarePred(Lead(s)) ==> Starts(Rest(s, x, floats), "{|")
    ensures CallPred(Lead(s)) ==> !Starts(Rest(s, x, floats), "(")
  {
    hide Text, ListText, FieldsText, VariantsText, RefinementText, EndsWithBase, Only;
    match s
    case AppS(h, args) => LeadNoPred(h, "[" + (ListText(args, floats) + ("]" + x)), floats);
    case DeclaredS(n, body) => if body.RefinedS? || body.OpaqueS? { SuffixedName(n, body.base); }
    case _ =>
  }

  lemma ItemNotPred(s: Spelled, x: string, floats: Floats)
    requires Good(s, floats) && Stops(x, NameChar) && (x != "" ==> x[0] != '(')
    ensures NotPred(Text(s, floats) + x)
  {
    hide Good, Text, Rest, Only;
    TextBegins(s, x, floats);
    LeadOnly(s, floats);
    RestStops(s, x, floats);
    LeadNoPred(s, x, floats);
    RunOf(Lead(s), Rest(s, x, floats), NameChar);
    assert (Lead(s) + Rest(s, x, floats))[|Lead(s)|..] == Rest(s, x, floats);
  }

  lemma FieldNotPred(f: SpelledField, x: string, floats: Floats)
    requires Identifier(f.name)
    ensures NotPred(FieldText(f, floats) + x)
  {
    var rest := ": " + (Text(f.typ, floats) + InlineText(f.preds, floats));
    Regroup(f.name, rest, x);
    RunOf(f.name, rest + x, NameChar);
    assert (rest + x)[0] == ':';
    assert (f.name + (rest + x))[|f.name|..] == rest + x;
  }

  // ----- reading a text back -----

  lemma RefinementRead(p: Option<seq<Pred>>, q: Option<seq<Pred>>, x: string, y: string, floats: Floats)
    requires Faithful(floats) && HeadEnds(x) && HeadEnds(y)
    requires (p.Some? ==> GoodPreds(p.value, floats)) && (q.Some? ==> GoodPreds(q.value, floats))
    requires RefinementText(p, floats) + x == RefinementText(q, floats) + y
    ensures p == q && x == y
  {
    hide Faithful, GoodPreds, PredsText, NotPred;
    RefinementStarts(p, x, floats);
    RefinementStarts(q, y, floats);
    if p.Some? && q.Some? {
      TailsEqual("where ", PredsText(p.value, floats) + x, PredsText(q.value, floats) + y);
      PredsRead(p.value, q.value, x, y, floats);
    }
  }

  lemma RefinementStarts(p: Option<seq<Pred>>, x: string, floats: Floats)
    requires HeadEnds(x)
    ensures p.None? ==> RefinementText(p, floats) + x == x && (x != "" ==> x[0] !in "wo{|@(<")
    ensures p.Some? ==> RefinementText(p, floats) + x == "where " + (PredsText(p.value, floats) + x)
    ensures !Starts(RefinementText(p, floats) + x, "o")
  {
    if p.Some? { Regroup("where ", PredsText(p.value, floats), x); }
  }

  lemma InlineRead(p: Option<seq<Pred>>, q: Option<seq<Pred>>, x: string, y: string, floats: Floats)
    requires Faithful(floats) && Ends(x) && Ends(y) && x != "" && y != "" && x[0] in ",})" && y[0] in ",})"
    requires (p.Some? ==> GoodPreds(p.value, floats)) && (q.Some? ==> GoodPreds(q.value, floats))
    requires InlineText(p, floats) + x == InlineText(q, floats) + y
    ensures p == q && x == y
  {
    hide Faithful, GoodPreds, PredsText, NotPred, RefinementText;
    if p.Some? { Regroup(" ", RefinementText(p, floats), x); } else { assert InlineText(p, floats) + x == x; }
    if q.Some? { Regroup(" ", RefinementText(q, floats), y); } else { assert InlineText(q, floats) + y == y; }
    if p.Some? && q.Some? {
      TailsEqual(" ", RefinementText(p, floats) + x, RefinementText(q, floats) + y);
      RefinementRead(p, q, x, y, floats);
    }
  }

  function HeadOf(s: Spelled): Spelled {
    if s.AppS? then s.head else s
  }

  function TailOf(s: Spelled, x: string, floats: Floats): string {
    if s.AppS? then "[" + (ListText(s.args, floats) + ("]" + x)) else x
  }

  lemma AppText(s: Spelled, x: string, floats: Floats)
    ensures Text(s, floats) + x == Text(HeadOf(s), floats) + TailOf(s, x, floats)
  {
    if s.AppS? {
      Regroup(Text(s.head, floats), "[" + (ListText(s.args, floats) + "]"), x);
      Regroup3("[", ListText(s.args, floats), "]", x);
    }
  }

  /** A type is read back from its text, whatever comes behind it. */
  lemma {:induction false} TextRead(s: Spelled, t: Spelled, x: string, y: string, floats: Floats)
    requires Faithful(floats) && Good(s, floats) && Good(t, floats) && Ends(x) && Ends(y)
    requires Text(s, floats) + x == Text(t, floats) + y
    ensures s == t && x == y
    decreases s, 3
  {
    hide Faithful, Good, Text, ListText, Rest, Lead, NotPred;
    LeadsEqual(s, t, x, y, floats);
    LeadTells(s, x, floats);
    LeadTells(t, y, floats);
    if Headed(s) && Headed(t) {
      AppRead(s, t, x, y, floats);
    } else if !Headed(s) && !Headed(t) {
      BuiltInRead(s, t, x, y, floats);
    } else {
      assert false;
    }
  }

  lemma {:induction false} AppRead(s: Spelled, t: Spelled, x: string, y: string, floats: Floats)
    requires Faithful(floats) && Good(s, floats) && Good(t, floats) && Headed(s) && Headed(t) && Ends(x) && Ends(y)
    requires Text(s, floats) + x == Text(t, floats) + y
    ensures s == t && x == y
    decreases s, 2
  {
    hide Faithful, Text, ListText, NotPred;
    AppText(s, x, floats);
    AppText(t, y, floats);
    HeadRead(HeadOf(s), HeadOf(t), TailOf(s, x, floats), TailOf(t, y, floats), floats);
    if s.AppS? && t.AppS? {
      TailsEqual("[", ListText(s.args, floats) + ("]" + x), ListText(t.args, floats) + ("]" + y));
      ListRead(s.args, t.args, "]" + x, "]" + y, floats);
      TailsEqual("]", x, y);
    }
  }

  lemma {:induction false} BuiltInRead(s: Spelled, t: Spelled, x: string, y: string, floats: Floats)
    requires Faithful(floats) && Good(s, floats) && Good(t, floats) && !Headed(s) && !Headed(t) && Ends(x) && Ends(y)
    requires Lead(s) == Lead(t) && Rest(s, x, floats) == Rest(t, y, floats)
    ensures s == t && x == y
    decreases s, 2
  {
    hide Faithful, Text, ListText, NotPred;
    BuiltInKinds(s, t, x, y, floats);
    match s
    case WrapS(w, a) =>
      var b := t.inner;
      TailsEqual("[", Text(a, floats) + ("]" + x), Text(b, floats) + ("]" + y));
      TextRead(a, b, "]" + x, "]" + y, floats);
      TailsEqual("]", x, y);
    case PairS(p, a, b) =>
      var c, d := t.first, t.second;
      var u, v := Text(b, floats) + ("]" + x), Text(d, floats) + ("]" + y);
      TailsEqual("[", Text(a, floats) + (", " + u), Text(c, floats) + (", " + v));
      ItemNotPred(b, "]" + x, floats);
      ItemNotPred(d, "]" + y, floats);
      CommaEnds(u);
      CommaEnds(v);
      TextRead(a, c, ", " + u, ", " + v, floats);
      TailsEqual(", ", u, v);
      TextRead(b, d, "]" + x, "]" + y, floats);
      TailsEqual("]", x, y);
    case AtomS(_) => if s.atom == Unit { TailsEqual("()", x, y); }
    case NonBoundaryS => TailsEqual("<non-boundary>", x, y);
    case BaseS(_) =>
  }

  lemma CommaEnds(u: string)
    requires NotPred(u)
    ensures Ends(", " + u)
  {
    assert (", " + u)[2..] == u;
  }

  lemma BuiltInKinds(s: Spelled, t: Spelled, x: string, y: string, floats: Floats)
    requires Good(s, floats) && Good(t, floats) && !Headed(s) && !Headed(t) && Ends(x) && Ends(y)
    requires Lead(s) == Lead(t) && Rest(s, x, floats) == Rest(t, y, floats)
    ensures s.BaseS? ==> t == s && x == y
    ensures s.AtomS? ==> t == s
    ensures s.WrapS? ==> t.WrapS? && t.wrapper == s.wrapper
    ensures s.PairS? ==> t.PairS? && t.pairing == s.pairing
    ensures s.NonBoundaryS? ==> t.NonBoundaryS?
  {
    hide Text, ListText, NotPred;
    if Lead(s) != "" {
      assert Lead(s)[0] == Lead(t)[0];
    } else {
      assert Rest(s, x, floats)[0] == Rest(t, y, floats)[0];
    }
  }

  lemma {:induction false} HeadRead(s: Spelled, t: Spelled, x: string, y: string, floats: Floats)
    requires Faithful(floats) && Good(s, floats) && Good(t, floats) && IsHead(s) && IsHead(t)
    requires HeadEnds(x) && HeadEnds(y) && Text(s, floats) + x == Text(t, floats) + y
    ensures s == t && x == y
    decreases s, 1
  {
    hide Faithful, Text, NotPred, GoodBody, RefinementText, FieldsText, VariantsText, EndsWithBase;
    LeadsEqual(s, t, x, y, floats);
    HeadKinds(s, t, x, y, floats);
    match s
    case BackReferenceS(n) =>
      TailsEqual("@", n + x, t.name + y);
      RunsRead(n, t.name, x, y, NameChar);
    case UndeclaredS(n) =>
    case DeclaredS(n, body) => BodyRead(n, body, t.name, t.body, x, y, floats);
  }

  lemma HeadKinds(s: Spelled, t: Spelled, x: string, y: string, floats: Floats)
    requires Good(s, floats) && Good(t, floats) && IsHead(s) && IsHead(t) && HeadEnds(x) && HeadEnds(y)
    requires Lead(s) == Lead(t) && Rest(s, x, floats) == Rest(t, y, floats)
    ensures s.BackReferenceS? <==> t.BackReferenceS?
    ensures s.UndeclaredS? <==> t.UndeclaredS?
  {
    hide Text, NotPred, GoodBody, RefinementText, FieldsText, VariantsText, EndsWithBase;
    if s.DeclaredS? && (s.body.RefinedS? || s.body.OpaqueS?) { SuffixedName(s.name, s.body.base); }
    if t.DeclaredS? && (t.body.RefinedS? || t.body.OpaqueS?) { SuffixedName(t.name, t.body.base); }
  }

  lemma {:induction false} BodyRead(m: string, b: SpelledBody, n: string, c: SpelledBody, x: string, y: string, floats: Floats)
    requires Faithful(floats) && TypeName(m) && TypeName(n) && GoodBody(b, floats) && GoodBody(c, floats)
    requires HeadEnds(x) && HeadEnds(y) && Lead(DeclaredS(m, b)) == Lead(DeclaredS(n, c))
    requires Rest(DeclaredS(m, b), x, floats) == Rest(DeclaredS(n, c), y, floats)
    ensures m == n && b == c && x == y
    decreases b, 3
  {
    hide Faithful, NotPred, RefinementText, FieldsText, VariantsText, GoodPreds;
    BodyKinds(m, b, n, c, x, y, floats);
    match b
    case RefinedS(base, preds) =>
      BaseSuffix(m, n, base, c.base);
      TailsEqual(" ", RefinementText(preds, floats) + x, RefinementText(c.preds, floats) + y);
      RefinementRead(preds, c.preds, x, y, floats);
    case OpaqueS(base) =>
      BaseSuffix(m, n, base, c.base);
      TailsEqual(" opaque", x, y);
    case RecordS(fs) =>
      TailsEqual("{", FieldsText(fs, floats) + ("}" + x), FieldsText(c.fields, floats) + ("}" + y));
      FieldsRead(fs, c.fields, "}" + x, "}" + y, floats);
      TailsEqual("}", x, y);
    case SumS(vs) =>
      TailsEqual("|", VariantsText(vs, floats) + x, VariantsText(c.variants, floats) + y);
      VariantsRead(vs, c.variants, x, y, floats);
  }

  function Opening(b: SpelledBody): char {
    if b.RecordS? then '{' else if b.SumS? then '|' else ' '
  }

  lemma BodyKinds(m: string, b: SpelledBody, n: string, c: SpelledBody, x: string, y: string, floats: Floats)
    requires HeadEnds(x) && HeadEnds(y) && Rest(DeclaredS(m, b), x, floats) == Rest(DeclaredS(n, c), y, floats)
    ensures (b.RefinedS? <==> c.RefinedS?) && (b.OpaqueS? <==> c.OpaqueS?)
    ensures (b.RecordS? <==> c.RecordS?) && (b.SumS? <==> c.SumS?)
  {
    hide NotPred, RefinementText, FieldsText, VariantsText, HeadEnds;
    assert Starts(Rest(DeclaredS(m, b), x, floats), [Opening(b)]);
    assert Starts(Rest(DeclaredS(n, c), y, floats), [Opening(c)]);
    if b.RefinedS? && c.OpaqueS? { OpaqueTells(b.preds, x, y, floats); }
    if c.RefinedS? && b.OpaqueS? { OpaqueTells(c.preds, y, x, floats); }
  }

  lemma OpaqueTells(preds: Option<seq<Pred>>, x: string, y: string, floats: Floats)
    requires HeadEnds(x)
    ensures " " + (RefinementText(preds, floats) + x) != " opaque" + y
  {
    hide HeadEnds, RefinementText;
    RefinementStarts(preds, x, floats);
    var s := RefinementText(preds, floats) + x;
    if s != "" { assert (" " + s)[1] == s[0] && (" opaque" + y)[1] == 'o'; }
  }

  /** A list ends at the bracket that closes it. */
  predicate Closes(x: string, y: string) {
    x != "" && y != "" && x[0] == y[0] && x[0] in "])"
  }

  lemma {:induction false} ListRead(ss: seq<Spelled>, ts: seq<Spelled>, x: string, y: string, floats: Floats)
    requires Faithful(floats) && Closes(x, y)
    requires (forall i | 0 <= i < |ss| :: Good(ss[i], floats)) && (forall i | 0 <= i < |ts| :: Good(ts[i], floats))
    ensures ListText(ss, floats) + x == ListText(ts, floats) + y ==> ss == ts && x == y
    decreases ss, 0
  {
    hide Faithful, Good, Text, NotPred;
    ListStarts(ss, x, floats);
    ListStarts(ts, y, floats);
    if ListText(ss, floats) + x == ListText(ts, floats) + y && ss != [] && ts != [] {
      MoreEnds(ss[1..], x, floats);
      MoreEnds(ts[1..], y, floats);
      TextRead(ss[0], ts[0], MoreText(ss[1..], floats) + x, MoreText(ts[1..], floats) + y, floats);
      MoreRead(ss[1..], ts[1..], x, y, floats);
    }
  }

  lemma ListStarts(ss: seq<Spelled>, x: string, floats: Floats)
    requires (forall i | 0 <= i < |ss| :: Good(ss[i], floats)) && x != "" && x[0] in "])"
    ensures ss == [] ==> ListText(ss, floats) + x == x
    ensures ss != [] ==> ListText(ss, floats) + x == Text(ss[0], floats) + (MoreText(ss[1..], floats) + x)
    ensures ss != [] ==> ListText(ss, floats) + x != "" && (ListText(ss, floats) + x)[0] !in "])"
  {
    hide Good, Text, Lead, Rest;
    if ss != [] {
      var more := MoreText(ss[1..], floats) + x;
      Regroup(Text(ss[0], floats), MoreText(ss[1..], floats), x);
      TextBegins(ss[0], more, floats);
      LeadTells(ss[0], more, floats);
      LeadOnly(ss[0], floats);
    }
  }

  lemma MoreEnds(ss: seq<Spelled>, x: string, floats: Floats)
    requires (forall i | 0 <= i < |ss| :: Good(ss[i], floats)) && x != "" && x[0] in "])"
    ensures Ends(MoreText(ss, floats) + x)
  {
    hide Good, Text, NotPred;
    if ss == [] {
      assert MoreText(ss, floats) + x == x;
    } else {
      Regroup(", ", ListText(ss, floats), x);
      ListStarts(ss, x, floats);
      MoreStarts(ss[1..], x, floats);
      ItemNotPred(ss[0], MoreText(ss[1..], floats) + x, floats);
      CommaEnds(ListText(ss, floats) + x);
    }
  }

  lemma MoreStarts(ss: seq<Spelled>, x: string, floats: Floats)
    requires x != "" && x[0] in "])"
    ensures var s := MoreText(ss, floats) + x; Starts(s, "]),") && (s[0] == ',' <==> ss != [])
    ensures ss == [] ==> MoreText(ss, floats) + x == x
  {
    hide ListText;
  }

  lemma {:induction false} MoreRead(ss: seq<Spelled>, ts: seq<Spelled>, x: string, y: string, floats: Floats)
    requires Faithful(floats) && Closes(x, y)
    requires (forall i | 0 <= i < |ss| :: Good(ss[i], floats)) && (forall i | 0 <= i < |ts| :: Good(ts[i], floats))
    ensures MoreText(ss, floats) + x == MoreText(ts, floats) + y ==> ss == ts && x == y
    decreases ss, 1
  {
    hide Faithful, Good, ListText;
    MoreStarts(ss, x, floats);
    MoreStarts(ts, y, floats);
    if MoreText(ss, floats) + x == MoreText(ts, floats) + y && ss != [] && ts != [] {
      Regroup(", ", ListText(ss, floats), x);
      Regroup(", ", ListText(ts, floats), y);
      TailsEqual(", ", ListText(ss, floats) + x, ListText(ts, floats) + y);
      ListRead(ss, ts, x, y, floats);
    }
  }

  lemma {:induction false} FieldsRead(fs: seq<SpelledField>, gs: seq<SpelledField>, x: string, y: string, floats: Floats)
    requires Faithful(floats) && Starts(x, "})") && Starts(y, "})")
    requires (forall i | 0 <= i < |fs| :: GoodField(fs[i], floats)) && (forall i | 0 <= i < |gs| :: GoodField(gs[i], floats))
    ensures FieldsText(fs, floats) + x == FieldsText(gs, floats) + y ==> fs == gs && x == y
    decreases fs, 0
  {
    hide Faithful, GoodField, FieldText, NotPred;
    FieldsStart(fs, x, floats);
    FieldsStart(gs, y, floats);
    if FieldsText(fs, floats) + x == FieldsText(gs, floats) + y && fs != [] && gs != [] {
      MoreFieldsEnd(fs[1..], x, floats);
      MoreFieldsEnd(gs[1..], y, floats);
      FieldRead(fs[0], gs[0], MoreFields(fs[1..], floats) + x, MoreFields(gs[1..], floats) + y, floats);
      MoreFieldsRead(fs[1..], gs[1..], x, y, floats);
    }
  }

  lemma FieldsStart(fs: seq<SpelledField>, x: string, floats: Floats)
    requires (forall i | 0 <= i < |fs| :: GoodField(fs[i], floats)) && Starts(x, "})")
    ensures fs == [] ==> FieldsText(fs, floats) + x == x
    ensures fs != [] ==> FieldsText(fs, floats) + x == FieldText(fs[0], floats) + (MoreFields(fs[1..], floats) + x)
    ensures fs != [] ==> FieldsText(fs, floats) + x != "" && NameChar((FieldsText(fs, floats) + x)[0])
  {
    hide Good, GoodPreds, Text;
    if fs != [] { Regroup(FieldText(fs[0], floats), MoreFields(fs[1..], floats), x); }
  }

  lemma MoreFieldsEnd(fs: seq<SpelledField>, x: string, floats: Floats)
    requires (forall i | 0 <= i < |fs| :: GoodField(fs[i], floats)) && Starts(x, "})")
    ensures var s := MoreFields(fs, floats) + x;
            Ends(s) && Starts(s, ",})") && (s[0] == ',' <==> fs != []) && (fs == [] ==> s == x)
  {
    hide Good, GoodPreds, Text, NotPred, FieldText;
    if fs == [] {
      assert MoreFields(fs, floats) + x == x;
    } else {
      Regroup(", ", FieldsText(fs, floats), x);
      FieldsStart(fs, x, floats);
      FieldNotPred(fs[0], MoreFields(fs[1..], floats) + x, floats);
      CommaEnds(FieldsText(fs, floats) + x);
    }
  }

  lemma {:induction false} MoreFieldsRead(fs: seq<SpelledField>, gs: seq<SpelledField>, x: string, y: string, floats: Floats)
    requires Faithful(floats) && Starts(x, "})") && Starts(y, "})")
    requires (forall i | 0 <= i < |fs| :: GoodField(fs[i], floats)) && (forall i | 0 <= i < |gs| :: GoodField(gs[i], floats))
    ensures MoreFields(fs, floats) + x == MoreFields(gs, floats) + y ==> fs == gs && x == y
    decreases fs, 1
  {
    hide Faithful, GoodField, FieldsText, Ends;
    MoreFieldsEnd(fs, x, floats);
    MoreFieldsEnd(gs, y, floats);
    if MoreFields(fs, floats) + x == MoreFields(gs, floats) + y && fs != [] && gs != [] {
      Regroup(", ", FieldsText(fs, floats), x);
      Regroup(", ", FieldsText(gs, floats), y);
      TailsEqual(", ", FieldsText(fs, floats) + x, FieldsText(gs, floats) + y);
      FieldsRead(fs, gs, x, y, floats);
    }
  }

  lemma {:induction false} FieldRead(f: SpelledField, g: SpelledField, x: string, y: string, floats: Floats)
    requires Faithful(floats) && GoodField(f, floats) && GoodField(g, floats)
    requires Ends(x) && Ends(y) && Starts(x, ",})") && Starts(y, ",})")
    requires FieldText(f, floats) + x == FieldText(g, floats) + y
    ensures f == g && x == y
    decreases f, 4
  {
    hide Faithful, Good, GoodPreds, Text, InlineText, NotPred;
    var s, t := InlineText(f.preds, floats), InlineText(g.preds, floats);
    FieldBegins(f, x, floats);
    FieldBegins(g, y, floats);
    var u, v := Text(f.typ, floats) + (s + x), Text(g.typ, floats) + (t + y);
    RunsRead(f.name, g.name, ": " + u, ": " + v, NameChar);
    TailsEqual(": ", u, v);
    InlineEnds(f.preds, x, floats);
    InlineEnds(g.preds, y, floats);
    TextRead(f.typ, g.typ, s + x, t + y, floats);
    InlineRead(f.preds, g.preds, x, y, floats);
  }

  lemma FieldBegins(f: SpelledField, x: string, floats: Floats)
    ensures FieldText(f, floats) + x == f.name + (": " + (Text(f.typ, floats) + (InlineText(f.preds, floats) + x)))
  {
    var s, t := Text(f.typ, floats), InlineText(f.preds, floats);
    Regroup(f.name, ": " + (s + t), x);
    Regroup3(": ", s, t, x);
  }

  lemma InlineEnds(p: Option<seq<Pred>>, x: string, floats: Floats)
    requires Ends(x)
    ensures Ends(InlineText(p, floats) + x)
  {
    hide NotPred;
    var s := InlineText(p, floats) + x;
    if p.None? {
      assert s == x;
    } else {
      assert s[..7] == " where ";
    }
  }

  /** What may come behind a variant. */
  predicate AfterVariant(x: string) {
    Stops(x, NameChar) && !Starts(x, "(")
  }

  lemma {:induction false} VariantsRead(vs: seq<SpelledVariant>, ws: seq<SpelledVariant>, x: string, y: string, floats: Floats)
    requires Faithful(floats) && HeadEnds(x) && HeadEnds(y)
    requires (forall i | 0 <= i < |vs| :: GoodVariant(vs[i], floats)) && (forall i | 0 <= i < |ws| :: GoodVariant(ws[i], floats))
    ensures VariantsText(vs, floats) + x == VariantsText(ws, floats) + y ==> vs == ws && x == y
    decreases vs, 0
  {
    hide Faithful, VariantText, NotPred, GoodVariant;
    VariantsStart(vs, x, floats);
    VariantsStart(ws, y, floats);
    if VariantsText(vs, floats) + x == VariantsText(ws, floats) + y && vs != [] && ws != [] {
      MoreVariantsStart(vs[1..], x, floats);
      MoreVariantsStart(ws[1..], y, floats);
      VariantRead(vs[0], ws[0], MoreVariants(vs[1..], floats) + x, MoreVariants(ws[1..], floats) + y, floats);
      MoreVariantsRead(vs[1..], ws[1..], x, y, floats);
    }
  }

  lemma VariantsStart(vs: seq<SpelledVariant>, x: string, floats: Floats)
    requires (forall i | 0 <= i < |vs| :: GoodVariant(vs[i], floats)) && HeadEnds(x)
    ensures vs == [] ==> VariantsText(vs, floats) + x == x && Stops(x, NameChar)
    ensures vs != [] ==> VariantsText(vs, floats) + x == VariantText(vs[0], floats) + (MoreVariants(vs[1..], floats) + x)
    ensures vs != [] ==> !Stops(VariantsText(vs, floats) + x, NameChar)
  {
    hide Good, PayloadText, NotPred;
    if vs != [] { Regroup(VariantText(vs[0], floats), MoreVariants(vs[1..], floats), x); }
  }

  lemma MoreVariantsStart(vs: seq<SpelledVariant>, x: string, floats: Floats)
    requires HeadEnds(x)
    ensures var s := MoreVariants(vs, floats) + x;
            AfterVariant(s) && (Starts(s, "|") <==> vs != []) && (vs == [] ==> s == x)
  {
    hide VariantsText, NotPred;
    if vs == [] { assert MoreVariants(vs, floats) + x == x; }
  }

  lemma {:induction false} MoreVariantsRead(vs: seq<SpelledVariant>, ws: seq<SpelledVariant>, x: string, y: string, floats: Floats)
    requires Faithful(floats) && HeadEnds(x) && HeadEnds(y)
    requires (forall i | 0 <= i < |vs| :: GoodVariant(vs[i], floats)) && (forall i | 0 <= i < |ws| :: GoodVariant(ws[i], floats))
    ensures MoreVariants(vs, floats) + x == MoreVariants(ws, floats) + y ==> vs == ws && x == y
    decreases vs, 1
  {
    hide Faithful, GoodVariant, VariantsText, HeadEnds, AfterVariant;
    MoreVariantsStart(vs, x, floats);
    MoreVariantsStart(ws, y, floats);
    if MoreVariants(vs, floats) + x == MoreVariants(ws, floats) + y && vs != [] && ws != [] {
      Regroup("|", VariantsText(vs, floats), x);
      Regroup("|", VariantsText(ws, floats), y);
      TailsEqual("|", VariantsText(vs, floats) + x, VariantsText(ws, floats) + y);
      VariantsRead(vs, ws, x, y, floats);
    }
  }

  lemma {:induction false} VariantRead(v: SpelledVariant, w: SpelledVariant, x: string, y: string, floats: Floats)
    requires Faithful(floats) && GoodVariant(v, floats) && GoodVariant(w, floats) && AfterVariant(x) && AfterVariant(y)
    requires VariantText(v, floats) + x == VariantText(w, floats) + y
    ensures v == w && x == y
    decreases v, 4
  {
    hide Faithful, Good, ListText;
    Regroup(v.name, PayloadText(v.payload, floats), x);
    Regroup(w.name, PayloadText(w.payload, floats), y);
    PayloadStarts(v.payload, x, floats);
    PayloadStarts(w.payload, y, floats);
    RunsRead(v.name, w.name, PayloadText(v.payload, floats) + x, PayloadText(w.payload, floats) + y, NameChar);
    if v.payload != [] && w.payload != [] {
      TailsEqual("(", ListText(v.payload, floats) + (")" + x), ListText(w.payload, floats) + (")" + y));
      ListRead(v.payload, w.payload, ")" + x, ")" + y, floats);
      TailsEqual(")", x, y);
    }
  }

  lemma PayloadStarts(ss: seq<Spelled>, x: string, floats: Floats)
    requires AfterVariant(x)
    ensures Stops(PayloadText(ss, floats) + x, NameChar)
    ensures ss == [] ==> PayloadText(ss, floats) + x == x && !Starts(x, "(")
    ensures ss != [] ==> PayloadText(ss, floats) + x == "(" + (ListText(ss, floats) + (")" + x))
  {
    if ss != [] { Regroup3("(", ListText(ss, floats), ")", x); }
  }

  /** Forms in some order of their parts have one text only if they are the same form in the same order. */
  lemma TextTells(s: Spelled, t: Spelled, floats: Floats)
    requires Faithful(floats) && Good(s, floats) && Good(t, floats) && Text(s, floats) == Text(t, floats)
    ensures s == t
  {
    assert Text(s, floats) + "" == Text(s, floats) && Text(t, floats) + "" == Text(t, floats);
    TextRead(s, t, "", "", floats);
  }
}
