/** Printing a message template and reading it back.

    A literal is printed with every apostrophe doubled; at its first special character a quoted stretch opens
    and stays open to the end of the literal. */
module IcuRoundTrip {
  import opened Types
  import opened Icu
  import opened IcuProperties

  // ----- printing -----

  predicate Special(c: char) {
    c == '{' || c == '}' || c == '#'
  }

  function Escape(c: char): string {
    if c == '\'' then "''" else [c]
  }

  function Doubled(text: string): string {
    if text == "" then "" else Escape(text[0]) + Doubled(text[1..])
  }

  function PrintLiteral(text: string): string {
    if text == "" then ""
    else if Special(text[0]) then "'" + (Doubled(text) + "'")
    else Escape(text[0]) + PrintLiteral(text[1..])
  }

  function PrintSegment(s: SubSegment): string {
    match s case Literal(text) => PrintLiteral(text) case Hash => "#"
  }

  function PrintMessage(m: Message): string {
    if m == [] then "" else PrintSegment(m[0]) + PrintMessage(m[1..])
  }

  function PrintArms(arms: Arms): string {
    if arms == [] then ""
    else " " + arms[0].0 + " {" + PrintMessage(arms[0].1) + "}" + PrintArms(arms[1..])
  }

  function FromPlural(arms: seq<(PluralCategory, Message)>): (r: Arms)
    ensures |r| == |arms|
    ensures forall i | 0 <= i < |arms| :: r[i] == (CategoryText(arms[i].0), arms[i].1)
  {
    if arms == [] then [] else [(CategoryText(arms[0].0), arms[0].1)] + FromPlural(arms[1..])
  }

  function NumberText(s: NumberStyle): string {
    match s case IntegerStyle => "integer" case PercentStyle => "percent"
  }

  function DateText(s: DateStyle): string {
    match s case ShortStyle => "short" case MediumStyle => "medium" case LongStyle => "long" case FullStyle => "full"
  }

  /** What follows the comma that ends the placeholder's name. */
  function PrintKind(kind: PlaceholderKind): string {
    match kind
    case Plural(arms) => " plural," + PrintArms(FromPlural(arms))
    case Select(arms) => " select," + PrintArms(arms)
    case Number(None) => " number"
    case Number(Some(s)) => " number," + (" " + NumberText(s))
    case Date(None) => " date"
    case Date(Some(s)) => " date," + (" " + DateText(s))
  }

  datatype Part = Prose(text: string) | Plain(name: string) | Dispatch(placeholder: Placeholder)

  function PrintInner(part: Part): string
    requires !part.Prose?
  {
    match part
    case Plain(name) => name
    case Dispatch(p) => p.name + "," + PrintKind(p.kind)
  }

  function PrintPart(part: Part): string {
    if part.Prose? then part.text else "{" + PrintInner(part) + "}"
  }

  function PrintTemplate(parts: seq<Part>): string {
    if parts == [] then "" else PrintPart(parts[0]) + PrintTemplate(parts[1..])
  }

  // ----- reading -----

  function ReadSegment(s: Segment): Result<Part> {
    match s
    case Text(text) => Ok(Prose(text))
    case Slot(_, inner) =>
      if ',' !in inner then Ok(Plain(inner)) else
        match ParsePlaceholder(inner) case Ok(p) => Ok(Dispatch(p)) case Err(e) => Err(e)
  }

  function ReadSegments(segments: seq<Segment>): Result<seq<Part>> {
    if segments == [] then Ok([]) else
      match ReadSegment(segments[0])
      case Err(e) => Err(e)
      case Ok(part) =>
        match ReadSegments(segments[1..]) case Err(e) => Err(e) case Ok(parts) => Ok([part] + parts)
  }

  function ReadTemplate(template: string): Result<seq<Part>> {
    ReadSegments(SplitTemplate(template))
  }

  // ----- well-formed templates -----

  /** Text the scanners run over without stopping. */
  predicate Inert(s: string) {
    forall i | 0 <= i < |s| :: s[i] !in "'{},"
  }

  predicate Trimmed(s: string) {
    s != "" && !Space(s[0]) && !Space(s[|s| - 1])
  }

  predicate GoodKey(key: string) {
    key != "" && forall i | 0 <= i < |key| :: key[i] !in "'{}" && !Space(key[i])
  }

  ghost predicate GoodKind(kind: PlaceholderKind) {
    match kind
    case Plural(arms) => GoodArms(FromPlural(arms), {}, true) && HasOther(FromPlural(arms))
    case Select(arms) =>
      GoodArms(arms, {}, false) && HasOther(arms) && forall i | 0 <= i < |arms| :: GoodKey(arms[i].0)
    case _ => true
  }

  ghost predicate GoodPart(part: Part) {
    match part
    case Prose(text) => text != "" && '{' !in text
    case Plain(name) => name != "" && forall i | 0 <= i < |name| :: name[i] !in "{},"
    case Dispatch(p) => Inert(p.name) && Trimmed(p.name) && GoodKind(p.kind)
  }

  ghost predicate GoodTemplate(parts: seq<Part>) {
    (forall i | 0 <= i < |parts| :: GoodPart(parts[i])) &&
    forall i | 0 < i < |parts| :: !(parts[i - 1].Prose? && parts[i].Prose?)
  }

  // ----- literals -----

  /** The next text does not start with an apostrophe, which a closing one would pair up with. */
  predicate NoQuote(rest: string) {
    rest != "" && rest[0] != '\''
  }

  lemma Regroup(x: string, y: string, z: string)
    ensures (x + y) + z == x + (y + z)
  {
  }

  /** A quoted stretch opens with a character that is no apostrophe. */
  lemma PrintQuoted(text: string, rest: string)
    requires text != "" && Special(text[0])
    ensures PrintLiteral(text) + rest == "'" + (Doubled(text) + ("'" + rest))
    ensures NoQuote(Doubled(text) + ("'" + rest))
    ensures |PrintLiteral(text)| == |Doubled(text)| + 2
  {
    assert Doubled(text)[0] == text[0];
  }

  lemma SubMessageOver(c: char, s: string, at: nat, quoted: bool, literal: string, allowHash: bool)
    requires quoted || !Special(c)
    ensures SubMessage(Escape(c) + s, at, quoted, literal, allowHash) ==
            SubMessage(s, at + |Escape(c)|, quoted, literal + [c], allowHash)
  {
    assert (Escape(c) + s)[|Escape(c)|..] == s;
  }

  lemma SubMessageOverQuote(s: string, at: nat, quoted: bool, literal: string, allowHash: bool)
    requires NoQuote(s)
    ensures SubMessage("'" + s, at, quoted, literal, allowHash) == SubMessage(s, at + 1, !quoted, literal, allowHash)
  {
    assert ("'" + s)[1..] == s;
  }

  lemma {:induction false} QuotedSubMessage(text: string, rest: string, at: nat, literal: string, allowHash: bool)
    requires NoQuote(rest)
    ensures SubMessage(Doubled(text) + ("'" + rest), at, true, literal, allowHash) ==
            SubMessage(rest, at + |Doubled(text)| + 1, false, literal + text, allowHash)
  {
    hide SubMessage, Escape;
    var tail := "'" + rest;
    if text == "" {
      assert "" + tail == tail && literal + text == literal;
      SubMessageOverQuote(rest, at, true, literal, allowHash);
    } else {
      var c, more := text[0], Doubled(text[1..]);
      Regroup(Escape(c), more, tail);
      SubMessageOver(c, more + tail, at, true, literal, allowHash);
      QuotedSubMessage(text[1..], rest, at + |Escape(c)|, literal + [c], allowHash);
      assert literal + [c] + text[1..] == literal + text;
    }
  }

  lemma {:induction false} LiteralSubMessage(text: string, rest: string, at: nat, literal: string, allowHash: bool)
    requires NoQuote(rest)
    ensures SubMessage(PrintLiteral(text) + rest, at, false, literal, allowHash) ==
            SubMessage(rest, at + |PrintLiteral(text)|, false, literal + text, allowHash)
  {
    hide SubMessage, Escape, Special;
    if text == "" {
      assert "" + rest == rest && literal + text == literal;
    } else if Special(text[0]) {
      PrintQuoted(text, rest);
      SubMessageOverQuote(Doubled(text) + ("'" + rest), at, false, literal, allowHash);
      QuotedSubMessage(text, rest, at + 1, literal, allowHash);
    } else {
      var c, more := text[0], PrintLiteral(text[1..]);
      Regroup(Escape(c), more, rest);
      SubMessageOver(c, more + rest, at, false, literal, allowHash);
      LiteralSubMessage(text[1..], rest, at + |Escape(c)|, literal + [c], allowHash);
      assert literal + [c] + text[1..] == literal + text;
    }
  }

  lemma CloseOver(c: char, s: string, depth: int, quoted: bool)
    requires quoted || (c != '{' && c != '}')
    ensures CloseFrom(Escape(c) + s, depth, quoted) == Plus(|Escape(c)|, CloseFrom(s, depth, quoted))
  {
    assert (Escape(c) + s)[|Escape(c)|..] == s;
  }

  lemma CloseOverQuote(s: string, depth: int, quoted: bool)
    requires NoQuote(s)
    ensures CloseFrom("'" + s, depth, quoted) == Plus(1, CloseFrom(s, depth, !quoted))
  {
    assert ("'" + s)[1..] == s;
  }

  lemma {:induction false} QuotedClose(text: string, rest: string, depth: int)
    requires NoQuote(rest)
    ensures CloseFrom(Doubled(text) + ("'" + rest), depth, true) ==
            Plus(|Doubled(text)| + 1, CloseFrom(rest, depth, false))
  {
    hide CloseFrom, Escape;
    var tail := "'" + rest;
    if text == "" {
      assert "" + tail == tail;
      CloseOverQuote(rest, depth, true);
    } else {
      var c, more := text[0], Doubled(text[1..]);
      Regroup(Escape(c), more, tail);
      CloseOver(c, more + tail, depth, true);
      QuotedClose(text[1..], rest, depth);
    }
  }

  lemma {:induction false} LiteralClose(text: string, rest: string, depth: int)
    requires NoQuote(rest)
    ensures CloseFrom(PrintLiteral(text) + rest, depth, false) ==
            Plus(|PrintLiteral(text)|, CloseFrom(rest, depth, false))
  {
    hide CloseFrom, Escape;
    if text == "" {
      assert "" + rest == rest;
    } else if Special(text[0]) {
      PrintQuoted(text, rest);
      CloseOverQuote(Doubled(text) + ("'" + rest), depth, false);
      QuotedClose(text, rest, depth);
    } else {
      var c, more := text[0], PrintLiteral(text[1..]);
      Regroup(Escape(c), more, rest);
      CloseOver(c, more + rest, depth, false);
      LiteralClose(text[1..], rest, depth);
    }
  }

  // ----- messages -----

  lemma TidyTail(m: Message, allowHash: bool)
    requires m != [] && TidyMessage(m, allowHash)
    ensures TidyMessage(m[1..], allowHash)
    ensures m[0].Literal? && |m| > 1 ==> m[1].Hash?
  {
  }

  lemma MessageFront(m: Message, rest: string, allowHash: bool)
    requires TidyMessage(m, allowHash) && NoQuote(rest) && (m != [] ==> m[0].Hash?)
    ensures NoQuote(PrintMessage(m) + rest)
  {
  }

  /** Reading a printed message and its closing brace gives the message back. */
  lemma MessageReads(m: Message, tail: string, at: nat, allowHash: bool)
    requires TidyMessage(m, allowHash)
    ensures SubMessage(PrintMessage(m) + ("}" + tail), at, false, "", allowHash) ==
            Ok(ArmBody(m, at + |PrintMessage(m)| + 1))
  {
    var rest := "}" + tail;
    if m == [] {
      assert "" + rest == rest;
    } else {
      MessageReadsFrom(m, tail, at, allowHash);
    }
  }

  lemma {:induction false} MessageReadsFrom(m: Message, tail: string, at: nat, allowHash: bool)
    requires m != [] && TidyMessage(m, allowHash)
    ensures SubMessage(PrintMessage(m) + ("}" + tail), at, false, "", allowHash) ==
            Ok(ArmBody(m, at + |PrintMessage(m)| + 1))
    decreases m, 1
  {
    var rest := "}" + tail;
    TidyTail(m, allowHash);
    if m[0].Hash? {
      HashReads(m, tail, at, "", allowHash);
      assert Flush("") + m == m;
    } else {
      var text, more := m[0].text, PrintMessage(m[1..]);
      MessageFront(m[1..], rest, allowHash);
      assert PrintMessage(m) + rest == PrintLiteral(text) + (more + rest);
      LiteralSubMessage(text, more + rest, at, "", allowHash);
      assert "" + text == text;
      if |m| == 1 {
        assert m == [Literal(text)] && more + rest == rest;
      } else {
        HashReads(m[1..], tail, at + |PrintLiteral(text)|, text, allowHash);
        assert Flush(text) + m[1..] == m;
      }
    }
  }

  /** A `#` ends the literal read so far. */
  lemma {:induction false} HashReads(m: Message, tail: string, at: nat, literal: string, allowHash: bool)
    requires m != [] && m[0].Hash? && TidyMessage(m, allowHash)
    ensures SubMessage(PrintMessage(m) + ("}" + tail), at, false, literal, allowHash) ==
            Ok(ArmBody(Flush(literal) + m, at + |PrintMessage(m)| + 1))
    decreases m, 0
  {
    var rest, more := "}" + tail, PrintMessage(m[1..]);
    assert PrintMessage(m) + rest == "#" + (more + rest) && ("#" + (more + rest))[1..] == more + rest;
    TidyTail(m, allowHash);
    if |m| == 1 {
      assert more + rest == rest;
      assert Flush(literal) + [Hash] + Flush("") == Flush(literal) + m;
    } else {
      MessageReadsFrom(m[1..], tail, at + 1, allowHash);
      assert Flush(literal) + [Hash] + m[1..] == Flush(literal) + m;
    }
  }

  lemma SegmentClose(x: SubSegment, rest: string, depth: int)
    requires NoQuote(rest)
    ensures CloseFrom(PrintSegment(x) + rest, depth, false) == Plus(|PrintSegment(x)|, CloseFrom(rest, depth, false))
  {
    hide CloseFrom;
    match x
    case Literal(text) => LiteralClose(text, rest, depth);
    case Hash => CloseOver('#', rest, depth, false);
  }

  /** Behind a segment of a tidy message no apostrophe follows, except behind a `#`. */
  lemma HashClose(rest: string, depth: int)
    ensures CloseFrom("#" + rest, depth, false) == Plus(1, CloseFrom(rest, depth, false))
  {
    CloseOver('#', rest, depth, false);
  }

  /** The brace scanner runs over a printed message. */
  lemma {:induction false} MessageClose(m: Message, rest: string, depth: int, allowHash: bool)
    requires TidyMessage(m, allowHash) && NoQuote(rest)
    ensures CloseFrom(PrintMessage(m) + rest, depth, false) == Plus(|PrintMessage(m)|, CloseFrom(rest, depth, false))
  {
    hide CloseFrom, PrintSegment, NoQuote, TidyMessage;
    if m == [] {
      assert "" + rest == rest;
    } else {
      TidyTail(m, allowHash);
      var more := PrintMessage(m[1..]) + rest;
      MessageClose(m[1..], rest, depth, allowHash);
      Regroup(PrintSegment(m[0]), PrintMessage(m[1..]), rest);
      if m[0].Hash? {
        PrintHash();
        HashClose(more, depth);
      } else {
        MessageFront(m[1..], rest, allowHash);
        SegmentClose(m[0], more, depth);
      }
    }
  }

  lemma PrintHash()
    ensures PrintSegment(Hash) == "#"
  {
  }

  // ----- keys, arms and formats -----

  lemma SpaceBefore(t: string)
    requires t != "" && !AsciiSpace(t[0])
    ensures SpaceRun(" " + t) == 1
  {
    assert (" " + t)[1..] == t;
  }

  lemma {:induction false} KeyBefore(key: string, rest: string)
    requires (forall i | 0 <= i < |key| :: key[i] != '{' && !Space(key[i])) && rest != "" && Space(rest[0])
    ensures KeyRun(key + rest) == |key|
  {
    if key == "" {
      assert key + rest == rest;
    } else {
      assert (key + rest)[1..] == key[1..] + rest && (key + rest)[0] == key[0];
      KeyBefore(key[1..], rest);
    }
  }

  lemma GoodKeyAccepted(key: string, at: nat, known: set<string>, plural: bool)
    requires GoodKey(key) && key !in known && (plural ==> ParseCategory(key).Some?)
    ensures KeyError(key, at, known, plural).None?
  {
  }

  lemma ArmSlices(key: string, message: string, rest: string)
    ensures var s := " " + key + " {" + message + "}" + rest;
            var end := |key| + 1;
            s[1..] == key + s[end..] && s[1..end] == key && s[end..] == " " + ("{" + (message + ("}" + rest))) &&
            s[end + 1] == '{' && s[end + 2..] == message + ("}" + rest)
  {
  }

  /** One printed arm is read back, whatever follows it. */
  lemma ReadArmPrinted(key: string, m: Message, rest: string, at: nat, known: set<string>, plural: bool)
    requires GoodKey(key) && key !in known && (plural ==> ParseCategory(key).Some?) && TidyMessage(m, plural)
    ensures ReadArm(" " + key + " {" + PrintMessage(m) + "}" + rest, at, known, plural) ==
            Arm(key, m, |key| + |PrintMessage(m)| + 4)
  {
    hide SpaceRun, KeyRun, SubMessage, KeyError, PrintMessage, ParseCategory, TidyMessage;
    var s := " " + key + " {" + PrintMessage(m) + "}" + rest;
    var end := |key| + 1;
    ArmSlices(key, PrintMessage(m), rest);
    assert s == " " + s[1..];
    SpaceBefore(s[1..]);
    KeyBefore(key, s[end..]);
    GoodKeyAccepted(key, at + 1, known, plural);
    SpaceBefore("{" + (PrintMessage(m) + ("}" + rest)));
    MessageReads(m, rest, 0, plural);
  }

  lemma {:induction false} ArmsRead(arms: Arms, at: nat, known: set<string>, plural: bool)
    requires GoodArms(arms, known, plural) && forall i | 0 <= i < |arms| :: GoodKey(arms[i].0)
    ensures ParseArms(PrintArms(arms), at, known, plural) == Ok(arms)
    decreases arms
  {
    hide ReadArm, GoodKey, TidyMessage, PrintMessage, ParseCategory;
    if arms == [] {
      NoArms(at, known, plural);
    } else {
      var (key, m) := arms[0];
      var s, rest, length := PrintArms(arms), PrintArms(arms[1..]), |key| + |PrintMessage(m)| + 4;
      ReadArmPrinted(key, m, rest, at, known, plural);
      assert s[length..] == rest;
      ArmsRead(arms[1..], at + length, known + {key}, plural);
      assert [(key, m)] + arms[1..] == arms;
    }
  }

  lemma NoArms(at: nat, known: set<string>, plural: bool)
    ensures ReadArm("", at, known, plural) == End
  {
  }

  /** Text without apostrophes and braces does not matter to the brace scanner. */
  lemma {:induction false} InertClose(s: string, rest: string, depth: int)
    requires forall i | 0 <= i < |s| :: s[i] !in "'{}"
    ensures CloseFrom(s + rest, depth, false) == Plus(|s|, CloseFrom(rest, depth, false))
  {
    if s == "" {
      assert s + rest == rest;
    } else {
      assert s + rest == Escape(s[0]) + (s[1..] + rest);
      CloseOver(s[0], s[1..] + rest, depth, false);
      InertClose(s[1..], rest, depth);
    }
  }

  lemma CloseOpening(s: string, depth: int)
    ensures CloseFrom("{" + s, depth, false) == Plus(1, CloseFrom(s, depth + 1, false))
    ensures depth != 1 ==> CloseFrom("}" + s, depth, false) == Plus(1, CloseFrom(s, depth - 1, false))
  {
    assert ("{" + s)[1..] == s && ("}" + s)[1..] == s;
  }

  lemma BracesClose(m: Message, rest: string, allowHash: bool)
    requires TidyMessage(m, allowHash)
    ensures CloseFrom("{" + PrintMessage(m) + "}" + rest, 1, false) ==
            Plus(|PrintMessage(m)| + 2, CloseFrom(rest, 1, false))
  {
    hide CloseFrom, PrintMessage, TidyMessage;
    var body := PrintMessage(m) + ("}" + rest);
    assert "{" + PrintMessage(m) + "}" + rest == "{" + body;
    CloseOpening(body, 1);
    MessageClose(m, "}" + rest, 2, allowHash);
    CloseOpening(rest, 2);
  }

  lemma ArmClose(key: string, m: Message, more: string, plural: bool)
    requires GoodKey(key) && TidyMessage(m, plural)
    ensures CloseFrom(" " + key + " {" + PrintMessage(m) + "}" + more, 1, false) ==
            Plus(|key| + |PrintMessage(m)| + 4, CloseFrom(more, 1, false))
  {
    hide CloseFrom, TidyMessage, PrintMessage;
    var body := "{" + PrintMessage(m) + "}" + more;
    assert " " + key + " {" + PrintMessage(m) + "}" + more == (" " + key + " ") + body;
    InertClose(" " + key + " ", body, 1);
    BracesClose(m, more, plural);
  }

  lemma {:induction false} ArmsClose(arms: Arms, rest: string, plural: bool)
    requires forall i | 0 <= i < |arms| :: GoodKey(arms[i].0) && TidyMessage(arms[i].1, plural)
    ensures CloseFrom(PrintArms(arms) + rest, 1, false) == Plus(|PrintArms(arms)|, CloseFrom(rest, 1, false))
  {
    hide CloseFrom, TidyMessage, PrintMessage, GoodKey;
    if arms == [] {
      assert "" + rest == rest;
    } else {
      var (key, m) := arms[0];
      ArmClose(key, m, PrintArms(arms[1..]) + rest, plural);
      ArmsClose(arms[1..], rest, plural);
      Regroup(" " + key + " {" + PrintMessage(m) + "}", PrintArms(arms[1..]), rest);
    }
  }

  lemma {:induction false} InertComma(s: string, rest: string)
    requires Inert(s)
    ensures CommaFrom(s + rest, 0, false) == Plus(|s|, CommaFrom(rest, 0, false))
  {
    if s == "" {
      assert s + rest == rest;
    } else {
      assert (s + rest)[0] == s[0] && (s + rest)[1..] == s[1..] + rest;
      InertComma(s[1..], rest);
    }
  }

  lemma CommaBehind(s: string, rest: string)
    requires Inert(s)
    ensures TopLevelComma(s + ("," + rest)) == Some(|s|) && TopLevelComma(s) == None
  {
    InertComma(s, "," + rest);
    InertComma(s, "");
    assert s + "" == s;
  }

  lemma TrimTrimmed(s: string)
    requires Trimmed(s)
    ensures Trim(s) == s && Trim(" " + s) == s
  {
    assert (" " + s)[1..] == s;
    assert TrimStart(s) == s && TrimStart(" " + s) == TrimStart(s) == s;
  }

  lemma CategoryKey(c: PluralCategory)
    ensures GoodKey(CategoryText(c)) && ParseCategory(CategoryText(c)) == Some(c)
  {
  }

  lemma {:induction false} FromPluralGood(arms: seq<(PluralCategory, Message)>)
    ensures forall i | 0 <= i < |arms| :: GoodKey(FromPlural(arms)[i].0)
    ensures ToPlural(FromPlural(arms)) == arms
  {
    hide GoodKey, CategoryText, ParseCategory;
    if arms != [] {
      assert FromPlural(arms)[1..] == FromPlural(arms[1..]);
      CategoryKey(arms[0].0);
      FromPluralGood(arms[1..]);
      assert [arms[0]] + arms[1..] == arms;
    }
  }

  lemma KeywordWithTail(name: string, keyword: string, tail: string, at: nat)
    requires Inert(keyword) && Trimmed(keyword)
    ensures ParseFormat(name, " " + keyword + "," + tail, at) ==
            ParseKeyword(name, keyword, |keyword| + 1, Some(tail), at, at + |keyword| + 2)
  {
    hide TopLevelComma, Trim, ParseKeyword;
    var rest := " " + keyword + "," + tail;
    assert rest == (" " + keyword) + ("," + tail);
    CommaBehind(" " + keyword, tail);
    var end := 1 + |keyword|;
    assert rest[..end] == " " + keyword && rest[end + 1..] == tail;
    TrimTrimmed(keyword);
  }

  lemma KeywordAlone(name: string, keyword: string, at: nat)
    requires Inert(keyword) && Trimmed(keyword)
    ensures ParseFormat(name, " " + keyword, at) ==
            ParseKeyword(name, keyword, |keyword| + 1, None, at, at + |keyword| + 1)
  {
    hide TopLevelComma, Trim, ParseKeyword;
    CommaBehind(" " + keyword, "");
    TrimTrimmed(keyword);
  }

  lemma ChoicesRead(name: string, plural: bool, arms: Arms, width: nat, at: nat, tailAt: nat)
    requires GoodArms(arms, {}, plural) && HasOther(arms) && forall i | 0 <= i < |arms| :: GoodKey(arms[i].0)
    ensures ParseChoices(name, plural, width, Some(PrintArms(arms)), at, tailAt) ==
            Ok(Placeholder(name, if plural then Plural(ToPlural(arms)) else Select(arms)))
  {
    hide ParseArms, GoodArms, GoodKey, PrintArms, ToPlural, HasOther;
    ArmsRead(arms, tailAt, {}, plural);
  }

  lemma StyleReads<T>(style: string, at: nat, construct: string, known: string -> Option<T>)
    requires Inert(style) && Trimmed(style) && known(style).Some?
    ensures ParseStyle(Some(" " + style), at, construct, known) == Ok(known(style))
  {
    hide TopLevelComma, Trim;
    CommaBehind(" " + style, "");
    TrimTrimmed(style);
  }

  lemma NumberTextGood(s: NumberStyle)
    ensures Inert(NumberText(s)) && Trimmed(NumberText(s)) && NumberStyleOf(NumberText(s)) == Some(s)
  {
  }

  lemma DateTextGood(s: DateStyle)
    ensures Inert(DateText(s)) && Trimmed(DateText(s)) && DateStyleOf(DateText(s)) == Some(s)
  {
  }

  lemma NumberReads(name: string, style: Option<NumberStyle>, at: nat)
    ensures ParseFormat(name, PrintKind(Number(style)), at) == Ok(Placeholder(name, Number(style)))
  {
    hide ParseFormat, NumberText, NumberStyleOf, TopLevelComma, Trim;
    assert " " + "number" == " number" && " " + "number" + "," == " number,";
    KeywordAlone(name, "number", at);
    if style.Some? {
      NumberTextGood(style.value);
      KeywordWithTail(name, "number", " " + NumberText(style.value), at);
      StyleReads(NumberText(style.value), at + 8, "number", NumberStyleOf);
    }
  }

  lemma DateReads(name: string, style: Option<DateStyle>, at: nat)
    ensures ParseFormat(name, PrintKind(Date(style)), at) == Ok(Placeholder(name, Date(style)))
  {
    hide ParseFormat, DateText, DateStyleOf, TopLevelComma, Trim;
    assert " " + "date" == " date" && " " + "date" + "," == " date,";
    KeywordAlone(name, "date", at);
    if style.Some? {
      DateTextGood(style.value);
      KeywordWithTail(name, "date", " " + DateText(style.value), at);
      StyleReads(DateText(style.value), at + 6, "date", DateStyleOf);
    }
  }

  lemma KindReads(name: string, kind: PlaceholderKind, at: nat)
    requires GoodKind(kind)
    ensures ParseFormat(name, PrintKind(kind), at) == Ok(Placeholder(name, kind))
  {
    hide ParseFormat, PrintArms, GoodArms, GoodKey, ToPlural, FromPlural, ParseChoices;
    match kind
    case Plural(arms) =>
      FromPluralGood(arms);
      KeywordWithTail(name, "plural", PrintArms(FromPlural(arms)), at);
      assert " " + "plural" + "," == " plural,";
      ChoicesRead(name, true, FromPlural(arms), 7, at, at + 8);
    case Select(arms) =>
      KeywordWithTail(name, "select", PrintArms(arms), at);
      assert " " + "select" + "," == " select,";
      ChoicesRead(name, false, arms, 7, at, at + 8);
    case Number(style) => NumberReads(name, style, at);
    case Date(style) => DateReads(name, style, at);
  }

  lemma StyleInert(kind: PlaceholderKind)
    requires kind.Number? || kind.Date?
    ensures forall i | 0 <= i < |PrintKind(kind)| :: PrintKind(kind)[i] !in "'{}"
  {
  }

  lemma ChoicesClose(keyword: string, arms: Arms, rest: string, plural: bool)
    requires forall i | 0 <= i < |keyword| :: keyword[i] !in "'{}"
    requires forall i | 0 <= i < |arms| :: GoodKey(arms[i].0) && TidyMessage(arms[i].1, plural)
    ensures CloseFrom((keyword + PrintArms(arms)) + rest, 1, false) ==
            Plus(|keyword| + |PrintArms(arms)|, CloseFrom(rest, 1, false))
  {
    hide CloseFrom, GoodKey, PrintArms, TidyMessage;
    Regroup(keyword, PrintArms(arms), rest);
    InertClose(keyword, PrintArms(arms) + rest, 1);
    ArmsClose(arms, rest, plural);
  }

  lemma KindClose(kind: PlaceholderKind, rest: string)
    requires GoodKind(kind)
    ensures CloseFrom(PrintKind(kind) + rest, 1, false) == Plus(|PrintKind(kind)|, CloseFrom(rest, 1, false))
  {
    hide CloseFrom, GoodKey, PrintArms, TidyMessage, FromPlural;
    match kind
    case Plural(arms) =>
      FromPluralGood(arms);
      ChoicesClose(" plural,", FromPlural(arms), rest, true);
    case Select(arms) => ChoicesClose(" select,", arms, rest, false);
    case Number(_) => KindCloseStyle(kind, rest);
    case Date(_) => KindCloseStyle(kind, rest);
  }

  lemma KindCloseStyle(kind: PlaceholderKind, rest: string)
    requires kind.Number? || kind.Date?
    ensures CloseFrom(PrintKind(kind) + rest, 1, false) == Plus(|PrintKind(kind)|, CloseFrom(rest, 1, false))
  {
    hide CloseFrom, PrintKind;
    StyleInert(kind);
    InertClose(PrintKind(kind), rest, 1);
  }

  // ----- placeholders and templates -----

  lemma PlaceholderReads(p: Placeholder)
    requires GoodPart(Dispatch(p))
    ensures ParsePlaceholder(PrintInner(Dispatch(p))) == Ok(p)
  {
    hide TopLevelComma, Trim, ParseFormat, PrintKind, GoodKind;
    var inner := p.name + "," + PrintKind(p.kind);
    assert inner == p.name + ("," + PrintKind(p.kind));
    CommaBehind(p.name, PrintKind(p.kind));
    assert inner[..|p.name|] == p.name && inner[|p.name| + 1..] == PrintKind(p.kind);
    TrimTrimmed(p.name);
    KindReads(p.name, p.kind, |p.name| + 1);
  }

  lemma PlaceholderClose(p: Placeholder, tail: string)
    requires GoodPart(Dispatch(p))
    ensures IcuClose(PrintInner(Dispatch(p)) + ("}" + tail)) == Some(|PrintInner(Dispatch(p))|)
  {
    hide PrintKind, GoodKind;
    var rest := "}" + tail;
    assert PrintInner(Dispatch(p)) + rest == (p.name + ",") + (PrintKind(p.kind) + rest);
    InertClose(p.name + ",", PrintKind(p.kind) + rest, 1);
    KindClose(p.kind, rest);
  }

  lemma {:induction false} NotBefore(s: string, c: char, n: nat)
    requires n <= |s| && c !in s[..n]
    ensures IndexOf(s, c).Some? ==> IndexOf(s, c).value >= n
  {
    if n > 0 {
      assert s[..n][0] == s[0] && s[1..][..n - 1] == s[..n][1..];
      NotBefore(s[1..], c, n - 1);
    }
  }

  /** The splitter finds a printed placeholder's inner text, whatever follows it. */
  lemma SlotFound(part: Part, tail: string)
    requires !part.Prose? && GoodPart(part)
    ensures SlotAt(PrintInner(part) + ("}" + tail)) == Some(PrintInner(part))
    ensures PrintInner(part) != "" && (',' in PrintInner(part) <==> part.Dispatch?)
  {
    hide IcuClose, IndexOf, PrintKind, GoodKind;
    var inner := PrintInner(part);
    var rest := inner + ("}" + tail);
    assert rest[..|inner|] == inner && rest[|inner|] == '}';
    match part
    case Plain(name) =>
      IndexOfIs(rest, '}', |name|);
      NotBefore(rest, ',', |name|);
    case Dispatch(p) =>
      assert rest[..|p.name|] == p.name && rest[|p.name|] == ',' && inner[|p.name|] == ',';
      IndexOfIs(rest, ',', |p.name|);
      NotBefore(rest, '}', |p.name|);
      PlaceholderClose(p, tail);
  }

  lemma {:induction false} ProseScanned(s: string, rest: string, at: nat, text: string)
    requires '{' !in s
    ensures Segments(s + rest, at, text) == Segments(rest, at + |s|, text + s)
  {
    if s == "" {
      assert s + rest == rest && text + s == text;
    } else {
      assert (s + rest)[1..] == s[1..] + rest && (s + rest)[0] == s[0] && text + s == text + [s[0]] + s[1..];
      ProseScanned(s[1..], rest, at + 1, text + [s[0]]);
    }
  }

  function Pending(text: string): seq<Part> {
    if text == "" then [] else [Prose(text)]
  }

  lemma ReadSlotNext(text: string, slot: Segment, rest: seq<Segment>, part: Part, parts: seq<Part>)
    requires slot.Slot? && ReadSegment(slot) == Ok(part) && ReadSegments(rest) == Ok(parts)
    ensures ReadSegments(TextSegment(text) + [slot] + rest) == Ok(Pending(text) + [part] + parts)
  {
    hide ReadSegment;
    var here := [slot] + rest;
    assert here[1..] == rest && ReadSegments(here) == Ok([part] + parts);
    if text == "" {
      assert TextSegment(text) + [slot] + rest == here;
      assert Pending(text) + [part] + parts == [part] + parts;
    } else {
      var all := [Text(text)] + here;
      assert TextSegment(text) + [slot] + rest == all && all[1..] == here;
      ReadText(text);
      assert [Prose(text)] + ([part] + parts) == Pending(text) + [part] + parts;
    }
  }

  lemma ReadText(text: string)
    ensures ReadSegment(Text(text)) == Ok(Prose(text))
  {
  }

  lemma GoodTail(parts: seq<Part>)
    requires GoodTemplate(parts) && parts != []
    ensures GoodPart(parts[0]) && GoodTemplate(parts[1..])
    ensures |parts| > 1 && parts[0].Prose? ==> !parts[1..][0].Prose?
  {
    var rest := parts[1..];
    assert forall i | 0 <= i < |rest| :: rest[i] == parts[i + 1];
  }

  lemma {:induction false} TemplateReads(parts: seq<Part>, at: nat, text: string)
    requires GoodTemplate(parts) && (text != "" && parts != [] ==> !parts[0].Prose?)
    ensures ReadSegments(Segments(PrintTemplate(parts), at, text)) == Ok(Pending(text) + parts)
    decreases parts, 1
  {
    hide SlotAt, GoodPart, GoodTemplate, ReadSegment, PrintInner, Segments, ReadSegments;
    if parts == [] {
      TemplateEnd(at, text);
      assert Pending(text) + parts == Pending(text);
    } else if parts[0].Prose? {
      ProseReads(parts, at);
      assert Pending(text) + parts == parts;
    } else {
      SlotReads(parts, at, text);
    }
  }

  lemma {:induction false} ProseReads(parts: seq<Part>, at: nat)
    requires GoodTemplate(parts) && parts != [] && parts[0].Prose?
    ensures ReadSegments(Segments(PrintTemplate(parts), at, "")) == Ok(parts)
    decreases parts, 0
  {
    hide SlotAt, GoodTemplate, ReadSegment, PrintInner, Segments, ReadSegments;
    var text, rest := parts[0].text, PrintTemplate(parts[1..]);
    GoodTail(parts);
    ProseScanned(text, rest, at, "");
    assert "" + text == text;
    TemplateReads(parts[1..], at + |text|, text);
    assert Pending(text) + parts[1..] == parts;
  }

  lemma {:induction false} SlotReads(parts: seq<Part>, at: nat, text: string)
    requires GoodTemplate(parts) && parts != [] && !parts[0].Prose?
    ensures ReadSegments(Segments(PrintTemplate(parts), at, text)) == Ok(Pending(text) + parts)
    decreases parts, 0
  {
    hide SlotAt, GoodPart, GoodTemplate, ReadSegment, PrintInner, PrintPart, Segments, ReadSegments, TextSegment, Pending;
    var part, rest := parts[0], PrintTemplate(parts[1..]);
    var inner := PrintInner(part);
    var next := at + |inner| + 2;
    GoodTail(parts);
    TemplateReads(parts[1..], next, "");
    NothingPending(parts[1..]);
    SlotScanned(part, rest, at, text);
    ReadSlotNext(text, Slot(at + 1, inner), Segments(rest, next, ""), part, parts[1..]);
    assert Pending(text) + [part] + parts[1..] == Pending(text) + parts;
  }

  lemma NothingPending(parts: seq<Part>)
    ensures Pending("") + parts == parts
  {
  }

  lemma TemplateEnd(at: nat, text: string)
    ensures ReadSegments(Segments("", at, text)) == Ok(Pending(text))
  {
    if text != "" {
      assert [Text(text)][1..] == [] && [Prose(text)] + [] == [Prose(text)];
      ReadText(text);
    }
  }

  lemma PartSlices(inner: string, rest: string)
    ensures var s := "{" + inner + "}" + rest;
            s[0] == '{' && s[1..] == inner + ("}" + rest) && s[|inner| + 2..] == rest
  {
  }

  lemma SlotScanned(part: Part, rest: string, at: nat, text: string)
    requires !part.Prose? && GoodPart(part)
    ensures Segments(PrintPart(part) + rest, at, text) ==
            TextSegment(text) + [Slot(at + 1, PrintInner(part))] + Segments(rest, at + |PrintInner(part)| + 2, "")
    ensures ReadSegment(Slot(at + 1, PrintInner(part))) == Ok(part)
  {
    hide SlotAt, PrintInner, GoodPart, ParsePlaceholder, TextSegment;
    SlotFound(part, rest);
    PartSlices(PrintInner(part), rest);
    if part.Dispatch? { PlaceholderReads(part.placeholder); } else { PlainInner(part); }
  }

  lemma PlainInner(part: Part)
    requires part.Plain?
    ensures PrintInner(part) == part.name
  {
  }

  /** Printing any well-formed template, with arbitrary literal text in its arms, and then splitting it and
      parsing its placeholders gives the template back. */
  lemma TemplateRoundTrip(parts: seq<Part>)
    requires GoodTemplate(parts) && parts != []
    ensures ReadTemplate(PrintTemplate(parts)) == Ok(parts)
  {
    TemplateReads(parts, 0, "");
    assert Pending("") + parts == parts;
    assert PrintPart(parts[0]) != "" by { assert GoodPart(parts[0]); }
  }

  /** Without parts the template is empty, which reads as one empty literal. */
  lemma EmptyTemplateReads()
    ensures ReadTemplate(PrintTemplate([])) == Ok([Prose("")])
  {
    assert [Text("")][1..] == [] && [Prose("")] + [] == [Prose("")];
    ReadText("");
  }
}
