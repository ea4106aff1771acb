/** What a rejected placeholder is told: every error's kind and span say where in the inner text which rule is broken. */
module IcuErrors {
  import opened Types
  import opened Icu
  import opened IcuProperties
  import opened IcuLanguage

  /** The text under an error's span, as far as the inner text goes. */
  function Under(text: string, e: ParseError): string {
    if e.offset > |text| then ""
    else if e.offset + e.length > |text| then text[e.offset..]
    else text[e.offset..e.offset + e.length]
  }

  predicate KnownKeyword(keyword: string) {
    keyword in {"plural", "select", "number", "date", "selectordinal", ""}
  }

  predicate KnownStyle(construct: string, style: string) {
    (construct == "number" && style in {"integer", "percent"}) ||
    (construct == "date" && style in {"short", "medium", "long", "full"})
  }

  predicate KnownCategory(key: string) {
    key in {"zero", "one", "two", "few", "many", "other"}
  }

  predicate OffsetKey(key: string) {
    "offset:" <= key
  }

  predicate ExactKey(key: string) {
    key != "" && key[0] == '='
  }

  /** Some arms spell the text, and none of them is `other`. */
  ghost predicate NoOther(text: string, plural: bool) {
    exists arms :: SpellsArms(text, arms, {}, plural) && !HasOther(arms)
  }

  predicate OccursAt(text: string, key: string, i: nat) {
    i + |key| <= |text| && text[i..i + |key|] == key
  }

  ghost predicate OccursBefore(text: string, key: string, end: nat) {
    exists i: nat :: OccursAt(text, key, i) && i + |key| <= end
  }

  /** The rule that the kind names is broken at the span. A missing body is reported where it should start, an arm without
      a key at its brace; a body that is never closed runs to the end of the text, and one that ends inside quotes is
      reported there. */
  ghost predicate Justified(text: string, e: ParseError) {
    var under := Under(text, e);
    match e.kind
    case EmptyPlaceholderName => e.offset == 0 && exists c: nat :: c < |text| && SplitsAt(text, c) && AllSpace(text[..c])
    case MissingFormatKeyword => if e.offset == 0 then NoComma(text) else e.offset <= |text| && text[e.offset - 1] == ','
    case UnknownFormatKeyword(k) => TrimsTo(under, k) && !KnownKeyword(k)
    case UnsupportedSelectordinal => TrimsTo(under, "selectordinal")
    case UnsupportedPluralOffset => IsKey(under) && OffsetKey(under)
    case UnsupportedPluralExactValueArm(key) => under == key && IsKey(key) && ExactKey(key) && !OffsetKey(key)
    case UnknownPluralCategory(key) => under == key && IsKey(key) && !KnownCategory(key) && !ExactKey(key) && !OffsetKey(key)
    case DuplicateArmKey(key) => under == key && IsKey(key) && OccursBefore(text, key, e.offset)
    case MissingArmBody(key) =>
      if key == "" then TrimsTo(under, "plural") || TrimsTo(under, "select") || (under != "" && !KeyChar(under[0]))
      else IsKey(key) && OccursBefore(text, key, e.offset) && !("{" <= under)
    case UnknownStyleKeyword(construct, found) => TrimsTo(under, found) && !KnownStyle(construct, found)
    case TrailingContentAfterStyle(found) => TrimsTo(under, found) && 0 < e.offset <= |text| && text[e.offset - 1] == ','
    case MissingOtherArm => NoOther(under, true) || NoOther(under, false)
    case HashOutsidePluralArm => under == "#"
    case NestedDispatchInSubMessage => under == "{"
    case DanglingQuoteEscape => e.offset == |text|
    case UnbalancedArmBraces => e.offset <= |text| && under == text[e.offset..]
  }

  // ----- arm bodies -----

  /** What can be wrong with a body, which is the rest of the text. */
  predicate WrongBody(body: string, e: ParseError) {
    match e.kind
    case HashOutsidePluralArm => Under(body, e) == "#"
    case NestedDispatchInSubMessage => Under(body, e) == "{"
    case DanglingQuoteEscape => e.offset == |body|
    case UnbalancedArmBraces => e.offset == 0 && e.length >= |body|
    case _ => false
  }

  lemma {:induction false} SubMessageWrong(body: string, at: nat, quoted: bool, literal: string, allowHash: bool)
    requires at <= |body|
    ensures var r := SubMessage(body[at..], at, quoted, literal, allowHash); r.Err? ==> WrongBody(body, r.error)
    decreases |body| - at
  {
    var s := body[at..];
    if s == "" {
    } else if DoubledQuote(s) {
      assert s[2..] == body[at + 2..];
      SubMessageWrong(body, at + 2, quoted, literal + "'", allowHash);
    } else {
      assert s[1..] == body[at + 1..];
      if s[0] == '\'' {
        SubMessageWrong(body, at + 1, !quoted, literal, allowHash);
      } else if s[0] == '#' && !quoted {
        SubMessageWrong(body, at + 1, quoted, "", allowHash);
      } else {
        SubMessageWrong(body, at + 1, quoted, literal + [s[0]], allowHash);
      }
    }
  }

  lemma ShiftJustified(text: string, at: nat, e: ParseError)
    requires at <= |text| && WrongBody(text[at..], e)
    ensures Justified(text, ShiftError(at, e))
  {
    var body := text[at..];
    assert Under(text, ShiftError(at, e)) == Under(body, e);
  }

  // ----- arms -----

  lemma KeyErrorJustified(text: string, key: string, at: nat, known: set<string>, plural: bool)
    requires at + |key| <= |text| && text[at..at + |key|] == key && at < |text|
    requires (forall i | 0 <= i < |key| :: KeyChar(key[i])) && (key == "" ==> !KeyChar(text[at]))
    requires forall k | k in known :: OccursBefore(text, k, at)
    ensures var e := KeyError(key, at, known, plural); e.Some? ==> Justified(text, e.value)
  {
    hide Justified, OccursBefore, KeyChar;
    if key == "" {
      NoKeyJustified(text, at);
    } else if KeyError(key, at, known, plural).Some? {
      WrongKeyJustified(text, key, at, known, plural);
    }
  }

  lemma NoKeyJustified(text: string, at: nat)
    requires at < |text| && !KeyChar(text[at])
    ensures Justified(text, At(at, 1, MissingArmBody("")))
  {
    hide TrimsTo, KeyChar;
    assert Under(text, At(at, 1, MissingArmBody(""))) == text[at..at + 1];
  }

  lemma WrongKeyJustified(text: string, key: string, at: nat, known: set<string>, plural: bool)
    requires key != "" && at + |key| <= |text| && text[at..at + |key|] == key && forall i | 0 <= i < |key| :: KeyChar(key[i])
    requires KeyError(key, at, known, plural).Some? && forall k | k in known :: OccursBefore(text, k, at)
    ensures Justified(text, KeyError(key, at, known, plural).value)
  {
    hide Space, OccursBefore, TrimsTo, NoOther, NoComma, SplitsAt;
    var e := KeyError(key, at, known, plural).value;
    assert Under(text, e) == key;
    assert IsKey(key);
  }

  lemma KeyErrorNone(key: string, at: nat, known: set<string>, plural: bool)
    requires KeyError(key, at, known, plural).None?
    ensures key != ""
  {
  }

  lemma ReadArmJustified(text: string, at: nat, known: set<string>, plural: bool)
    requires at <= |text| && forall k | k in known :: OccursBefore(text, k, at)
    ensures var turn := ReadArm(text[at..], at, known, plural); turn.Wrong? ==> Justified(text, turn.error)
  {
    hide SpaceRun, KeyRun, SubMessage, KeyError, OccursBefore, Justified, WrongBody, AsciiSpace, Space;
    var s := text[at..];
    var start := SpaceRun(s);
    if start < |s| {
      var end := start + KeyRun(s[start..]);
      var key := s[start..end];
      assert key == text[at + start..at + end];
      KeyReadJustified(text, at, start, end, known, plural);
      if KeyError(key, at + start, known, plural).None? {
        KeyErrorNone(key, at + start, known, plural);
        var brace := end + SpaceRun(s[end..]);
        if brace == |s| || s[brace] != '{' {
          NoBodyJustified(text, key, at + start, at + brace);
        } else {
          assert s[brace + 1..] == text[at + brace + 1..];
          BodyJustified(text, at + brace + 1, plural);
        }
      }
    }
  }

  lemma KeyReadJustified(text: string, at: nat, start: nat, end: nat, known: set<string>, plural: bool)
    requires at <= |text| && forall k | k in known :: OccursBefore(text, k, at)
    requires var s := text[at..]; start < |s| && end == start + KeyRun(s[start..])
    ensures var key := text[at + start..at + end];
      (forall i | 0 <= i < |key| :: KeyChar(key[i])) &&
      var e := KeyError(key, at + start, known, plural); e.Some? ==> Justified(text, e.value)
  {
    hide KeyRun, KeyError, OccursBefore, Justified, Space;
    var s, key := text[at..], text[at + start..at + end];
    KeyRunExact(s[start..], end - start);
    forall k | k in known ensures OccursBefore(text, k, at + start) { OccursLater(text, k, at, at + start); }
    forall i | 0 <= i < |key| ensures KeyChar(key[i]) { assert key[i] == s[start..][i]; }
    assert s[start..][0] == text[at + start];
    KeyErrorJustified(text, key, at + start, known, plural);
  }

  lemma BodyJustified(text: string, at: nat, plural: bool)
    requires at <= |text|
    ensures var r := SubMessage(text[at..], 0, false, "", plural); r.Err? ==> Justified(text, ShiftError(at, r.error))
  {
    hide SubMessage, Justified, WrongBody;
    assert text[at..][0..] == text[at..];
    SubMessageWrong(text[at..], 0, false, "", plural);
    var r := SubMessage(text[at..], 0, false, "", plural);
    if r.Err? { ShiftJustified(text, at, r.error); }
  }

  lemma OccursLater(text: string, key: string, end: nat, more: nat)
    requires OccursBefore(text, key, end) && end <= more <= |text|
    ensures OccursBefore(text, key, more)
  {
  }

  lemma NoBodyJustified(text: string, key: string, at: nat, brace: nat)
    requires at + |key| <= brace <= |text| && text[at..at + |key|] == key && (brace < |text| ==> text[brace] != '{')
    requires key != "" && forall i | 0 <= i < |key| :: KeyChar(key[i])
    ensures Justified(text, At(brace, 1, MissingArmBody(key)))
  {
    assert OccursAt(text, key, at);
  }

  lemma {:induction false} ParseArmsJustified(text: string, at: nat, known: set<string>, plural: bool)
    requires at <= |text| && forall k | k in known :: OccursBefore(text, k, at)
    ensures var r := ParseArms(text[at..], at, known, plural); r.Err? ==> Justified(text, r.error)
    decreases |text| - at
  {
    hide ReadArm, OccursBefore, Justified;
    ReadArmJustified(text, at, known, plural);
    match ReadArm(text[at..], at, known, plural)
    case Arm(key, m, length) =>
      assert text[at..][length..] == text[at + length..];
      ReadArmSpells(text[at..], at, known, plural, key, m, length);
      ArmKeyOccurs(text, at, key, m, known, plural, length);
      forall k | k in known + {key} ensures OccursBefore(text, k, at + length) {
        if k in known { OccursLater(text, k, at, at + length); }
      }
      ParseArmsJustified(text, at + length, known + {key}, plural);
    case _ =>
  }

  lemma ArmKeyOccurs(text: string, at: nat, key: string, m: Message, known: set<string>, plural: bool, length: nat)
    requires at <= |text| && length <= |text| - at && SpellsArm(text[at..], key, m, known, plural, length)
    ensures OccursBefore(text, key, at + length)
  {
    hide SpellsMessage, Blank;
    var start, end, brace :| SpellsArmAt(text[at..], key, m, known, plural, start, end, brace, length);
    assert OccursAt(text, key, at + start);
  }

  // ----- placeholders -----

  lemma OtherJustified(text: string, tailAt: nat, plural: bool)
    requires tailAt <= |text| && NoOther(text[tailAt..], plural)
    ensures Justified(text, At(tailAt, |text| - tailAt, MissingOtherArm))
  {
    hide NoOther;
    assert Under(text, At(tailAt, |text| - tailAt, MissingOtherArm)) == text[tailAt..];
  }

  lemma ChoicesJustified(text: string, name: string, plural: bool, at: nat, tailAt: nat)
    requires tailAt <= |text|
    ensures var r := ParseChoices(name, plural, 0, Some(text[tailAt..]), at, tailAt); r.Err? ==> Justified(text, r.error)
  {
    hide ParseArms, ToPlural, Justified, SpellsArms, HasOther;
    var tail := text[tailAt..];
    ParseArmsJustified(text, tailAt, {}, plural);
    var r := ParseArms(tail, tailAt, {}, plural);
    if r.Ok? && !HasOther(r.value) {
      ParseArmsSpells(tail, tailAt, {}, plural, r.value);
      OtherJustified(text, tailAt, plural);
    }
  }

  lemma ChoicesWidth(name: string, plural: bool, width: nat, tail: string, at: nat, tailAt: nat)
    ensures ParseChoices(name, plural, width, Some(tail), at, tailAt) == ParseChoices(name, plural, 0, Some(tail), at, tailAt)
  {
  }

  lemma StyleJustified<T>(text: string, tailAt: nat, construct: string, known: string -> Option<T>)
    requires 0 < tailAt <= |text| && forall x :: known(x).Some? <==> KnownStyle(construct, x)
    ensures var r := ParseStyle(Some(text[tailAt..]), tailAt, construct, known); r.Err? ==> Justified(text, r.error)
  {
    hide TopLevelComma, Trim, TrimsTo, KnownStyle;
    var tail := text[tailAt..];
    match TopLevelComma(tail)
    case Some(extra) =>
      var rest := tail[extra + 1..];
      TrimExact(rest, Trim(rest));
      assert rest == text[tailAt + extra + 1..] && text[tailAt + extra] == ',';
      assert Under(text, At(tailAt + extra + 1, |rest|, TrailingContentAfterStyle(Trim(rest)))) == rest;
    case None =>
      TrimExact(tail, Trim(tail));
      assert Under(text, At(tailAt, |tail|, UnknownStyleKeyword(construct, Trim(tail)))) == tail;
  }

  lemma StylesKnown()
    ensures forall x :: NumberStyleOf(x).Some? <==> KnownStyle("number", x)
    ensures forall x :: DateStyleOf(x).Some? <==> KnownStyle("date", x)
  {
  }

  /** The keyword's text lies between `at` and `end`, and what follows a comma behind it runs to the end of the text. */
  lemma KeywordJustified(text: string, name: string, at: nat, end: nat, comma: bool)
    requires 0 < at <= end <= |text| && text[at - 1] == ','
    requires if comma then end < |text| && text[end] == ',' else end == |text|
    ensures var tail := if comma then Some(text[end + 1..]) else None;
      var r := ParseKeyword(name, Trim(text[at..end]), end - at, tail, at, if comma then end + 1 else end);
      r.Err? ==> Justified(text, r.error)
  {
    hide ParseChoices, ParseStyle, Trim, TrimsTo, NumberStyleOf, DateStyleOf, KnownStyle;
    var keyword, written := Trim(text[at..end]), text[at..end];
    TrimExact(written, keyword);
    StylesKnown();
    if keyword == "plural" || keyword == "select" {
      if comma {
        ChoicesJustified(text, name, keyword == "plural", at, end + 1);
        ChoicesWidth(name, keyword == "plural", end - at, text[end + 1..], at, end + 1);
      } else {
        NoBody(text, name, keyword, at, end);
      }
    } else if keyword == "number" {
      if comma { StyleJustified(text, end + 1, "number", NumberStyleOf); } else { NoStyle(end, "number", NumberStyleOf); }
    } else if keyword == "date" {
      if comma { StyleJustified(text, end + 1, "date", DateStyleOf); } else { NoStyle(end, "date", DateStyleOf); }
    } else if keyword != "" {
      KeywordUnder(text, at, end, UnsupportedSelectordinal);
      KeywordUnder(text, at, end, UnknownFormatKeyword(keyword));
    }
  }

  lemma KeywordUnder(text: string, at: nat, end: nat, kind: ErrorKind)
    requires at <= end <= |text| && Trim(text[at..end]) != ""
    ensures Under(text, At(at, end - at, kind)) == text[at..end]
  {
    assert Trim("") == "";
  }

  lemma NoBody(text: string, name: string, keyword: string, at: nat, end: nat)
    requires at <= end <= |text| && Trim(text[at..end]) == keyword && keyword in {"plural", "select"}
    ensures var r := ParseChoices(name, keyword == "plural", end - at, None, at, end); r.Err? ==> Justified(text, r.error)
  {
    hide Trim, TrimsTo;
    TrimExact(text[at..end], keyword);
    KeywordUnder(text, at, end, MissingArmBody(""));
  }

  /** Every error the parser reports is justified. */
  lemma ErrorJustified(inner: string)
    ensures ParsePlaceholder(inner).Err? ==> Justified(inner, ParsePlaceholder(inner).error)
  {
    hide TopLevelComma, Trim, ParseKeyword, SplitsAt, TrimsTo;
    match TopLevelComma(inner)
    case None => NoCommaExact(inner);
    case Some(c) =>
      SplitsExact(inner, c);
      var name, rest := Trim(inner[..c]), inner[c + 1..];
      if name == "" {
        TrimExact(inner[..c], "");
        TrimmedAway(inner[..c]);
      } else {
        match TopLevelComma(rest)
        case None =>
          assert rest == inner[c + 1..|inner|];
          KeywordJustified(inner, name, c + 1, |inner|, false);
        case Some(k) =>
          assert rest[..k] == inner[c + 1..c + 1 + k] && rest[k + 1..] == inner[c + k + 2..] && inner[c + 1 + k] == ',';
          KeywordJustified(inner, name, c + 1, c + 1 + k, true);
      }
  }

  lemma TrimmedAway(s: string)
    requires TrimsTo(s, "")
    ensures AllSpace(s)
  {
    hide Space;
    var i: nat, j: nat :| TrimsAt(s, "", i, j);
    assert s == s[..i] + s[j..];
  }
}
