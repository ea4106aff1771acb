/** The placeholder language of message templates: what the scanners and the parser compute.

    A bare apostrophe opens or closes a quoted stretch, a doubled one is an apostrophe in either mode, and
    nothing inside a quoted stretch is special. Every function here takes the rest of the text still to be
    scanned; positions count characters. */
module Icu {
  import opened Types

  datatype Result<+T> = Ok(value: T) | Err(error: ParseError)

  datatype SubSegment = Literal(text: string) | Hash

  datatype PluralCategory = Zero | One | Two | Few | Many | Other

  datatype NumberStyle = IntegerStyle | PercentStyle

  datatype DateStyle = ShortStyle | MediumStyle | LongStyle | FullStyle

  type Message = seq<SubSegment>

  datatype PlaceholderKind =
    | Plural(plurals: seq<(PluralCategory, Message)>)
    | Select(choices: seq<(string, Message)>)
    | Number(numberStyle: Option<NumberStyle>)
    | Date(dateStyle: Option<DateStyle>)

  datatype Placeholder = Placeholder(name: string, kind: PlaceholderKind)

  datatype ErrorKind =
    | EmptyPlaceholderName
    | MissingFormatKeyword
    | UnknownFormatKeyword(keyword: string)
    | UnsupportedSelectordinal
    | UnsupportedPluralOffset
    | UnsupportedPluralExactValueArm(key: string)
    | UnknownStyleKeyword(construct: string, found: string)
    | TrailingContentAfterStyle(found: string)
    | UnknownPluralCategory(key: string)
    | DuplicateArmKey(key: string)
    | MissingArmBody(key: string)
    | MissingOtherArm
    | HashOutsidePluralArm
    | NestedDispatchInSubMessage
    | DanglingQuoteEscape
    | UnbalancedArmBraces

  datatype ParseError = ParseError(offset: nat, length: nat, kind: ErrorKind)

  function At(offset: nat, length: nat, kind: ErrorKind): ParseError {
    ParseError(offset, if length == 0 then 1 else length, kind)
  }

  function ShiftError(n: nat, e: ParseError): ParseError {
    e.(offset := e.offset + n)
  }

  function Plus(n: nat, r: Option<nat>): Option<nat> {
    match r case None => None case Some(k) => Some(n + k)
  }

  // ----- scanning -----

  predicate DoubledQuote(s: string) {
    |s| >= 2 && s[0] == '\'' && s[1] == '\''
  }

  /** The first unquoted comma at depth 0. */
  function CommaFrom(s: string, depth: int, quoted: bool): (r: Option<nat>)
    ensures r.Some? ==> r.value < |s| && s[r.value] == ','
  {
    if s == "" then None
    else if DoubledQuote(s) then Plus(2, CommaFrom(s[2..], depth, quoted))
    else if s[0] == '\'' then Plus(1, CommaFrom(s[1..], depth, !quoted))
    else if s[0] == '{' && !quoted then Plus(1, CommaFrom(s[1..], depth + 1, quoted))
    else if s[0] == '}' && !quoted then Plus(1, CommaFrom(s[1..], depth - 1, quoted))
    else if s[0] == ',' && !quoted && depth == 0 then Some(0)
    else Plus(1, CommaFrom(s[1..], depth, quoted))
  }

  function TopLevelComma(s: string): (r: Option<nat>)
    ensures r.Some? ==> r.value < |s| && s[r.value] == ','
  {
    CommaFrom(s, 0, false)
  }

  /** The unquoted closing brace that brings `depth` open braces down to none. */
  function CloseFrom(s: string, depth: int, quoted: bool): (r: Option<nat>)
    ensures r.Some? ==> r.value < |s| && s[r.value] == '}'
  {
    if s == "" then None
    else if DoubledQuote(s) then Plus(2, CloseFrom(s[2..], depth, quoted))
    else if s[0] == '\'' then Plus(1, CloseFrom(s[1..], depth, !quoted))
    else if s[0] == '{' && !quoted then Plus(1, CloseFrom(s[1..], depth + 1, quoted))
    else if s[0] == '}' && !quoted then if depth == 1 then Some(0) else Plus(1, CloseFrom(s[1..], depth - 1, quoted))
    else Plus(1, CloseFrom(s[1..], depth, quoted))
  }

  /** `find_icu_close`, just after a placeholder's opening brace. */
  function IcuClose(rest: string): Option<nat> {
    CloseFrom(rest, 1, false)
  }

  // ----- sub-messages and arms -----

  function Flush(literal: string): Message {
    if literal == "" then [] else [Literal(literal)]
  }

  datatype ArmBody = ArmBody(message: Message, consumed: nat)

  function Before(segments: Message, r: Result<ArmBody>): Result<ArmBody> {
    match r
    case Ok(b) => Ok(ArmBody(segments + b.message, b.consumed))
    case Err(e) => Err(e)
  }

  /** `parse_sub_message` after `at` characters, with `literal` collected so far. */
  function SubMessage(s: string, at: nat, quoted: bool, literal: string, allowHash: bool): Result<ArmBody>
    decreases |s|
  {
    if s == "" then
      if quoted then Err(At(at, 1, DanglingQuoteEscape)) else Err(At(0, at, UnbalancedArmBraces))
    else if DoubledQuote(s) then SubMessage(s[2..], at + 2, quoted, literal + "'", allowHash)
    else if s[0] == '\'' then SubMessage(s[1..], at + 1, !quoted, literal, allowHash)
    else if s[0] == '{' && !quoted then Err(At(at, 1, NestedDispatchInSubMessage))
    else if s[0] == '}' && !quoted then Ok(ArmBody(Flush(literal), at + 1))
    else if s[0] == '#' && !quoted then
      if allowHash then Before(Flush(literal) + [Hash], SubMessage(s[1..], at + 1, quoted, "", allowHash))
      else Err(At(at, 1, HashOutsidePluralArm))
    else SubMessage(s[1..], at + 1, quoted, literal + [s[0]], allowHash)
  }

  predicate AsciiSpace(c: char) {
    c in " \t\n\r" || c == '\U{000C}'
  }

  /** The characters with the Unicode `White_Space` property. */
  predicate Space(c: char) {
    '\U{0009}' <= c <= '\U{000D}' || c == ' ' || c == '\U{0085}' || c == '\U{00A0}' || c == '\U{1680}' ||
    '\U{2000}' <= c <= '\U{200A}' || c in ['\U{2028}', '\U{2029}', '\U{202F}', '\U{205F}', '\U{3000}']
  }

  function SpaceRun(s: string): (n: nat)
    ensures n <= |s| && (n < |s| ==> !AsciiSpace(s[n]))
  {
    if s == "" || !AsciiSpace(s[0]) then 0 else 1 + SpaceRun(s[1..])
  }

  function KeyRun(s: string): (n: nat)
    ensures n <= |s|
  {
    if s == "" || Space(s[0]) || s[0] == '{' then 0 else 1 + KeyRun(s[1..])
  }

  function ParseCategory(s: string): Option<PluralCategory> {
    if s == "zero" then Some(Zero)
    else if s == "one" then Some(One)
    else if s == "two" then Some(Two)
    else if s == "few" then Some(Few)
    else if s == "many" then Some(Many)
    else if s == "other" then Some(Other)
    else None
  }

  function CategoryText(c: PluralCategory): string {
    match c
    case Zero => "zero"
    case One => "one"
    case Two => "two"
    case Few => "few"
    case Many => "many"
    case Other => "other"
  }

  type Arms = seq<(string, Message)>

  /** What is wrong with an arm's key, found after `at` characters. */
  function KeyError(key: string, at: nat, known: set<string>, plural: bool): Option<ParseError> {
    if key == "" then Some(At(at, 1, MissingArmBody("")))
    else if plural && "offset:" <= key then Some(At(at, |key|, UnsupportedPluralOffset))
    else if plural && key[0] == '=' then Some(At(at, |key|, UnsupportedPluralExactValueArm(key)))
    else if plural && ParseCategory(key).None? then Some(At(at, |key|, UnknownPluralCategory(key)))
    else if key in known then Some(At(at, |key|, DuplicateArmKey(key)))
    else None
  }

  /** One turn of the loop over the arms: the end of the text, an error, or one more arm and how far it goes. */
  datatype Turn = End | Wrong(error: ParseError) | Arm(key: string, message: Message, length: nat)

  /** Both callers allow `#` exactly in plural arms. */
  function ReadArm(s: string, at: nat, known: set<string>, plural: bool): (turn: Turn)
    ensures turn.Arm? ==> 0 < turn.length <= |s|
  {
    var start := SpaceRun(s);
    if start == |s| then End else
      var end := start + KeyRun(s[start..]);
      var key := s[start..end];
      var wrong := KeyError(key, at + start, known, plural);
      if wrong.Some? then Wrong(wrong.value) else
        var brace := end + SpaceRun(s[end..]);
        if brace == |s| || s[brace] != '{' then Wrong(At(at + brace, 1, MissingArmBody(key))) else
          SubMessageConsumes(s[brace + 1..], 0, false, "", plural);
          match SubMessage(s[brace + 1..], 0, false, "", plural)
          case Err(e) => Wrong(ShiftError(at + brace + 1, e))
          case Ok(body) => Arm(key, body.message, brace + 1 + body.consumed)
  }

  /** `parse_arms` after `at` characters, with the arms for the keys in `known` already read. */
  function ParseArms(s: string, at: nat, known: set<string>, plural: bool): Result<Arms>
    decreases |s|
  {
    match ReadArm(s, at, known, plural)
    case End => Ok([])
    case Wrong(e) => Err(e)
    case Arm(key, message, length) =>
      Prepend([(key, message)], ParseArms(s[length..], at + length, known + {key}, plural))
  }

  function Prepend(arms: Arms, r: Result<Arms>): Result<Arms> {
    match r case Ok(more) => Ok(arms + more) case Err(e) => Err(e)
  }

  lemma {:induction false} SubMessageConsumes(s: string, at: nat, quoted: bool, literal: string, allowHash: bool)
    ensures SubMessage(s, at, quoted, literal, allowHash).Ok? ==>
      at < SubMessage(s, at, quoted, literal, allowHash).value.consumed <= at + |s|
    decreases |s|
  {
    if s == "" {
    } else if DoubledQuote(s) {
      SubMessageConsumes(s[2..], at + 2, quoted, literal + "'", allowHash);
    } else if s[0] == '\'' {
      SubMessageConsumes(s[1..], at + 1, !quoted, literal, allowHash);
    } else if s[0] == '#' && !quoted {
      SubMessageConsumes(s[1..], at + 1, quoted, "", allowHash);
    } else {
      SubMessageConsumes(s[1..], at + 1, quoted, literal + [s[0]], allowHash);
    }
  }

  // ----- placeholders -----

  function TrimStart(s: string): string {
    if s == "" || !Space(s[0]) then s else TrimStart(s[1..])
  }

  function TrimEnd(s: string): string {
    if s == "" || !Space(s[|s| - 1]) then s else TrimEnd(s[..|s| - 1])
  }

  function Trim(s: string): string {
    TrimEnd(TrimStart(s))
  }

  function NumberStyleOf(s: string): Option<NumberStyle> {
    if s == "integer" then Some(IntegerStyle) else if s == "percent" then Some(PercentStyle) else None
  }

  function DateStyleOf(s: string): Option<DateStyle> {
    if s == "short" then Some(ShortStyle)
    else if s == "medium" then Some(MediumStyle)
    else if s == "long" then Some(LongStyle)
    else if s == "full" then Some(FullStyle)
    else None
  }

  /** `parse_optional_style`; `style` is the text after the keyword's comma, if any, found after `at`
      characters, and `known` reads a style keyword. */
  function ParseStyle<T>(style: Option<string>, at: nat, construct: string, known: string -> Option<T>): Result<Option<T>> {
    match style
    case None => Ok(None)
    case Some(s) =>
      match TopLevelComma(s)
      case Some(extra) =>
        Err(At(at + extra + 1, |s| - (extra + 1), TrailingContentAfterStyle(Trim(s[extra + 1..]))))
      case None =>
        match known(Trim(s))
        case Some(value) => Ok(Some(value))
        case None => Err(At(at, |s|, UnknownStyleKeyword(construct, Trim(s))))
  }

  predicate HasOther(arms: Arms) {
    exists i | 0 <= i < |arms| :: arms[i].0 == "other"
  }

  /** Arm keys read back as categories; the arms of a plural placeholder only have such keys. */
  function ToPlural(arms: Arms): seq<(PluralCategory, Message)> {
    if arms == [] then [] else
      (match ParseCategory(arms[0].0) case Some(c) => [(c, arms[0].1)] case None => []) + ToPlural(arms[1..])
  }

  /** `parse_icu_placeholder`. */
  function ParsePlaceholder(inner: string): Result<Placeholder> {
    match TopLevelComma(inner)
    case None => Err(At(0, |inner|, MissingFormatKeyword))
    case Some(nameEnd) =>
      var name := Trim(inner[..nameEnd]);
      if name == "" then Err(At(0, nameEnd, EmptyPlaceholderName)) else ParseFormat(name, inner[nameEnd + 1..], nameEnd + 1)
  }

  /** The rest of a placeholder, after the comma that ends its name. */
  function ParseFormat(name: string, rest: string, at: nat): Result<Placeholder> {
    match TopLevelComma(rest)
    case Some(end) => ParseKeyword(name, Trim(rest[..end]), end, Some(rest[end + 1..]), at, at + end + 1)
    case None => ParseKeyword(name, Trim(rest), |rest|, None, at, at + |rest|)
  }

  /** The format keyword, whose text of `width` characters starts after `at` characters, decides what the text
      after its comma means. */
  function ParseKeyword(name: string, keyword: string, width: nat, tail: Option<string>, at: nat, tailAt: nat): Result<Placeholder> {
    if keyword == "plural" || keyword == "select" then ParseChoices(name, keyword == "plural", width, tail, at, tailAt)
    else if keyword == "number" then
      match ParseStyle(tail, tailAt, "number", NumberStyleOf)
      case Err(e) => Err(e)
      case Ok(style) => Ok(Placeholder(name, Number(style)))
    else if keyword == "date" then
      match ParseStyle(tail, tailAt, "date", DateStyleOf)
      case Err(e) => Err(e)
      case Ok(style) => Ok(Placeholder(name, Date(style)))
    else if keyword == "selectordinal" then Err(At(at, width, UnsupportedSelectordinal))
    else if keyword == "" then Err(At(at, 1, MissingFormatKeyword))
    else Err(At(at, width, UnknownFormatKeyword(keyword)))
  }

  function ParseChoices(name: string, plural: bool, width: nat, tail: Option<string>, at: nat, tailAt: nat): Result<Placeholder> {
    match tail
    case None => Err(At(at, width, MissingArmBody("")))
    case Some(text) =>
      match ParseArms(text, tailAt, {}, plural)
      case Err(e) => Err(e)
      case Ok(arms) =>
        if !HasOther(arms) then Err(At(tailAt, |text|, MissingOtherArm))
        else Ok(Placeholder(name, if plural then Plural(ToPlural(arms)) else Select(arms)))
  }

  // ----- templates -----

  datatype Segment = Text(text: string) | Slot(offset: nat, inner: string)

  function IndexOf(s: string, c: char): (r: Option<nat>)
    ensures r.Some? ==> r.value < |s| && s[r.value] == c && c !in s[..r.value]
    ensures r.None? ==> c !in s
  {
    if s == "" then None else if s[0] == c then Some(0) else
      assert forall k | 1 <= k < |s| :: s[k] == s[1..][k - 1];
      Plus(1, IndexOf(s[1..], c))
  }

  /** A comma comes before the first closing brace. */
  predicate TakesIcuBranch(rest: string) {
    var comma, close := IndexOf(rest, ','), IndexOf(rest, '}');
    comma.Some? && (close.Some? ==> comma.value < close.value)
  }

  /** The inner text of the placeholder whose opening brace precedes `rest`, if there is one. */
  function SlotAt(rest: string): (inner: Option<string>)
    ensures inner.Some? ==> |inner.value| < |rest| && rest[..|inner.value| + 1] == inner.value + "}"
  {
    if TakesIcuBranch(rest) then
      match IcuClose(rest) case Some(close) => Some(rest[..close]) case None => None
    else
      match IndexOf(rest, '}')
      case Some(close) => if close > 0 && '{' !in rest[..close] then Some(rest[..close]) else None
      case None => None
  }

  function TextSegment(text: string): seq<Segment> {
    if text == "" then [] else [Text(text)]
  }

  /** The segments of the rest of a template after `at` characters, `text` being the literal read so far. */
  function Segments(s: string, at: nat, text: string): seq<Segment>
    decreases |s|
  {
    if s == "" then TextSegment(text) else
      var slot := if s[0] == '{' then SlotAt(s[1..]) else None;
      match slot
      case Some(inner) =>
        TextSegment(text) + [Slot(at + 1, inner)] + Segments(s[|inner| + 2..], at + |inner| + 2, "")
      case None => Segments(s[1..], at + 1, text + [s[0]])
  }

  /** `split_template`: an empty template is one empty literal. */
  function SplitTemplate(template: string): seq<Segment> {
    if template == "" then [Text("")] else Segments(template, 0, "")
  }
}
