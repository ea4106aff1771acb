/** The scanners as they run: index and flags updated character by character. */
module IcuScanners {
  import opened Types
  import opened Icu

  lemma CommaStep(s: string, i: nat, depth: int, quoted: bool)
    requires i < |s|
    ensures CommaFrom(s[i..], depth, quoted) ==
      if i + 1 < |s| && s[i] == s[i + 1] == '\'' then Plus(2, CommaFrom(s[i + 2..], depth, quoted))
      else if s[i] == '\'' then Plus(1, CommaFrom(s[i + 1..], depth, !quoted))
      else if s[i] == '{' && !quoted then Plus(1, CommaFrom(s[i + 1..], depth + 1, quoted))
      else if s[i] == '}' && !quoted then Plus(1, CommaFrom(s[i + 1..], depth - 1, quoted))
      else if s[i] == ',' && !quoted && depth == 0 then Some(0)
      else Plus(1, CommaFrom(s[i + 1..], depth, quoted))
  {
    assert s[i..][1..] == s[i + 1..] && (i + 1 < |s| ==> s[i..][2..] == s[i + 2..]);
  }

  method FindTopLevelComma(s: string) returns (r: Option<nat>)
    ensures r == TopLevelComma(s)
  {
    hide CommaFrom;
    var depth, quoted, i := 0, false, 0;
    assert s[0..] == s;
    while i < |s|
      invariant 0 <= i <= |s|
      invariant TopLevelComma(s) == Plus(i, CommaFrom(s[i..], depth, quoted))
    {
      CommaStep(s, i, depth, quoted);
      var c := s[i];
      if c == '\'' {
        if i + 1 < |s| && s[i + 1] == '\'' {
          i := i + 1;
        } else {
          quoted := !quoted;
        }
      } else if c == '{' && !quoted {
        depth := depth + 1;
      } else if c == '}' && !quoted {
        depth := depth - 1;
      } else if c == ',' && !quoted && depth == 0 {
        return Some(i);
      }
      i := i + 1;
    }
    assert s[i..] == "";
    return None;
  }

  lemma CloseStep(s: string, i: nat, depth: int, quoted: bool)
    requires i < |s|
    ensures CloseFrom(s[i..], depth, quoted) ==
      if i + 1 < |s| && s[i] == s[i + 1] == '\'' then Plus(2, CloseFrom(s[i + 2..], depth, quoted))
      else if s[i] == '\'' then Plus(1, CloseFrom(s[i + 1..], depth, !quoted))
      else if s[i] == '{' && !quoted then Plus(1, CloseFrom(s[i + 1..], depth + 1, quoted))
      else if s[i] == '}' && !quoted then
        if depth == 1 then Some(0) else Plus(1, CloseFrom(s[i + 1..], depth - 1, quoted))
      else Plus(1, CloseFrom(s[i + 1..], depth, quoted))
  {
    assert s[i..][1..] == s[i + 1..] && (i + 1 < |s| ==> s[i..][2..] == s[i + 2..]);
  }

  method FindIcuClose(rest: string) returns (r: Option<nat>)
    ensures r == IcuClose(rest)
  {
    hide CloseFrom;
    var depth, quoted, i := 1, false, 0;
    assert rest[0..] == rest;
    while i < |rest|
      invariant 0 <= i <= |rest|
      invariant IcuClose(rest) == Plus(i, CloseFrom(rest[i..], depth, quoted))
    {
      CloseStep(rest, i, depth, quoted);
      var c := rest[i];
      if c == '\'' {
        if i + 1 < |rest| && rest[i + 1] == '\'' {
          i := i + 1;
        } else {
          quoted := !quoted;
        }
      } else if c == '{' && !quoted {
        depth := depth + 1;
      } else if c == '}' && !quoted {
        depth := depth - 1;
        if depth == 0 { return Some(i); }
      }
      i := i + 1;
    }
    assert rest[i..] == "";
    return None;
  }

  lemma SubMessageStep(s: string, i: nat, quoted: bool, literal: string, allowHash: bool)
    requires i < |s|
    ensures SubMessage(s[i..], i, quoted, literal, allowHash) ==
      if i + 1 < |s| && s[i] == s[i + 1] == '\'' then SubMessage(s[i + 2..], i + 2, quoted, literal + "'", allowHash)
      else if s[i] == '\'' then SubMessage(s[i + 1..], i + 1, !quoted, literal, allowHash)
      else if s[i] == '{' && !quoted then Err(At(i, 1, NestedDispatchInSubMessage))
      else if s[i] == '}' && !quoted then Ok(ArmBody(Flush(literal), i + 1))
      else if s[i] == '#' && !quoted then
        if allowHash then Before(Flush(literal) + [Hash], SubMessage(s[i + 1..], i + 1, quoted, "", allowHash))
        else Err(At(i, 1, HashOutsidePluralArm))
      else SubMessage(s[i + 1..], i + 1, quoted, literal + [s[i]], allowHash)
  {
    assert s[i..][1..] == s[i + 1..] && (i + 1 < |s| ==> s[i..][2..] == s[i + 2..]);
  }

  lemma SubMessageEnd(at: nat, quoted: bool, literal: string, allowHash: bool)
    ensures SubMessage("", at, quoted, literal, allowHash) ==
            Err(if quoted then At(at, 1, DanglingQuoteEscape) else At(0, at, UnbalancedArmBraces))
  {
  }

  method ParseSubMessage(s: string, base: nat, allowHash: bool) returns (r: Result<ArmBody>)
    ensures r == match SubMessage(s, 0, false, "", allowHash) case Ok(b) => Ok(b) case Err(e) => Err(ShiftError(base, e))
  {
    hide SubMessage, Flush;
    var segments: Message := [];
    var literal, quoted, i := "", false, 0;
    assert s[0..] == s;
    BeforeNothing(SubMessage(s, 0, false, "", allowHash));
    while i < |s|
      invariant 0 <= i <= |s|
      invariant SubMessage(s, 0, false, "", allowHash) ==
                Before(segments, SubMessage(s[i..], i, quoted, literal, allowHash))
    {
      SubMessageStep(s, i, quoted, literal, allowHash);
      var c := s[i];
      if c == '\'' {
        if i + 1 < |s| && s[i + 1] == '\'' {
          i := i + 1;
          literal := literal + "'";
        } else {
          quoted := !quoted;
        }
      } else if c == '{' && !quoted {
        return Err(At(base + i, 1, NestedDispatchInSubMessage));
      } else if c == '}' && !quoted {
        segments := segments + Flush(literal);
        return Ok(ArmBody(segments, i + 1));
      } else if c == '#' && !quoted {
        if !allowHash { return Err(At(base + i, 1, HashOutsidePluralArm)); }
        BeforeBefore(segments, Flush(literal) + [Hash], SubMessage(s[i + 1..], i + 1, quoted, "", allowHash));
        segments := segments + (Flush(literal) + [Hash]);
        literal := "";
      } else {
        literal := literal + [c];
      }
      i := i + 1;
    }
    assert s[i..] == "";
    SubMessageEnd(i, quoted, literal, allowHash);
    if quoted { return Err(At(base + |s|, 1, DanglingQuoteEscape)); }
    return Err(At(base, |s|, UnbalancedArmBraces));
  }

  lemma BeforeNothing(r: Result<ArmBody>)
    ensures Before([], r) == r
  {
    if r.Ok? { assert [] + r.value.message == r.value.message; }
  }

  lemma BeforeBefore(x: Message, y: Message, r: Result<ArmBody>)
    ensures Before(x, Before(y, r)) == Before(x + y, r)
  {
    if r.Ok? { assert x + (y + r.value.message) == x + y + r.value.message; }
  }

  method SkipSpace(s: string, start: nat) returns (i: nat)
    requires start <= |s|
    ensures start <= i <= |s| && i == start + SpaceRun(s[start..])
  {
    i := start;
    while i < |s| && AsciiSpace(s[i])
      invariant start <= i <= |s| && start + SpaceRun(s[start..]) == i + SpaceRun(s[i..])
    {
      i := i + 1;
    }
  }

  method KeyEnd(s: string, start: nat) returns (i: nat)
    requires start <= |s|
    ensures start <= i <= |s| && i == start + KeyRun(s[start..])
  {
    i := start;
    while i < |s| && !Space(s[i]) && s[i] != '{'
      invariant start <= i <= |s| && start + KeyRun(s[start..]) == i + KeyRun(s[i..])
    {
      i := i + 1;
    }
  }

  method NextArm(s: string, at: nat, known: set<string>, plural: bool) returns (turn: Turn)
    ensures turn == ReadArm(s, at, known, plural)
  {
    hide SubMessage, KeyError, SpaceRun, KeyRun;
    assert s[0..] == s;
    var start := SkipSpace(s, 0);
    if start == |s| { return End; }
    var end := KeyEnd(s, start);
    var wrong := KeyError(s[start..end], at + start, known, plural);
    if wrong.Some? { return Wrong(wrong.value); }
    var brace := SkipSpace(s, end);
    if brace == |s| || s[brace] != '{' { return Wrong(At(at + brace, 1, MissingArmBody(s[start..end]))); }
    var body := ParseSubMessage(s[brace + 1..], at + brace + 1, plural);
    return match body
      case Err(e) => Wrong(e)
      case Ok(b) => Arm(s[start..end], b.message, brace + 1 + b.consumed);
  }

  /** The loop over the arms, `base` characters into the placeholder. */
  method ParseArmList(text: string, base: nat, plural: bool) returns (r: Result<Arms>)
    ensures r == ParseArms(text, base, {}, plural)
  {
    hide ReadArm;
    var arms: Arms := [];
    var known: set<string> := {};
    var i := 0;
    assert text[0..] == text;
    PrependPrepend([], [], ParseArms(text, base, {}, plural));
    while true
      invariant 0 <= i <= |text|
      invariant ParseArms(text, base, {}, plural) == Prepend(arms, ParseArms(text[i..], base + i, known, plural))
      decreases |text| - i
    {
      var turn := NextArm(text[i..], base + i, known, plural);
      match turn {
        case End =>
          assert arms + [] == arms;
          return Ok(arms);
        case Wrong(e) => return Err(e);
        case Arm(key, message, length) =>
          assert text[i..][length..] == text[i + length..];
          PrependPrepend(arms, [(key, message)],
                         ParseArms(text[i + length..], base + i + length, known + {key}, plural));
          arms, known, i := arms + [(key, message)], known + {key}, i + length;
      }
    }
  }

  lemma PrependPrepend(x: Arms, y: Arms, r: Result<Arms>)
    ensures Prepend(x, Prepend(y, r)) == Prepend(x + y, r) && Prepend([], r) == r
  {
    if r.Ok? {
      assert x + (y + r.value) == x + y + r.value && [] + r.value == r.value;
    }
  }

  /** `parse_icu_placeholder` on top of the scanners. */
  method ParseIcuPlaceholder(inner: string) returns (r: Result<Placeholder>)
    ensures r == ParsePlaceholder(inner)
  {
    hide TopLevelComma, ParseArms, Trim, ParseStyle;
    var nameEnd := FindTopLevelComma(inner);
    if nameEnd.None? { return Err(At(0, |inner|, MissingFormatKeyword)); }
    var name := Trim(inner[..nameEnd.value]);
    if name == "" { return Err(At(0, nameEnd.value, EmptyPlaceholderName)); }
    var rest, at := inner[nameEnd.value + 1..], nameEnd.value + 1;
    var end := FindTopLevelComma(rest);
    var keyword := Trim(if end.Some? then rest[..end.value] else rest);
    if (keyword == "plural" || keyword == "select") && end.Some? {
      var text, textAt := rest[end.value + 1..], at + end.value + 1;
      var arms := ParseArmList(text, textAt, keyword == "plural");
      if arms.Err? { return Err(arms.error); }
      if !HasOther(arms.value) { return Err(At(textAt, |text|, MissingOtherArm)); }
      return Ok(Placeholder(name, if keyword == "plural" then Plural(ToPlural(arms.value)) else Select(arms.value)));
    }
    return ParseFormat(name, rest, at);
  }

  method FindSlot(rest: string) returns (slot: Option<string>)
    ensures slot == SlotAt(rest)
  {
    if TakesIcuBranch(rest) {
      var close := FindIcuClose(rest);
      return if close.Some? then Some(rest[..close.value]) else None;
    }
    var close := IndexOf(rest, '}');
    return if close.Some? && close.value > 0 && '{' !in rest[..close.value] then Some(rest[..close.value]) else None;
  }

  lemma SegmentsStep(template: string, i: nat, text: string)
    requires i < |template|
    ensures Segments(template[i..], i, text) ==
      match if template[i] == '{' then SlotAt(template[i + 1..]) else None
      case Some(inner) =>
        TextSegment(text) + [Slot(i + 1, inner)] + Segments(template[i + |inner| + 2..], i + |inner| + 2, "")
      case None => Segments(template[i + 1..], i + 1, text + [template[i]])
  {
    hide SlotAt;
    assert template[i..][1..] == template[i + 1..];
    if template[i] == '{' && SlotAt(template[i + 1..]).Some? {
      var inner := SlotAt(template[i + 1..]).value;
      assert template[i..][|inner| + 2..] == template[i + |inner| + 2..];
    }
  }

  /** The scan over a template. */
  method Split(template: string) returns (segments: seq<Segment>)
    ensures segments == SplitTemplate(template)
  {
    hide Segments, SlotAt;
    segments := [];
    var literalStart, i := 0, 0;
    assert template[0..] == template;
    while i < |template|
      invariant 0 <= literalStart <= i <= |template|
      invariant Segments(template, 0, "") == segments + Segments(template[i..], i, template[literalStart..i])
      invariant i > 0 && literalStart == i ==> segments != []
      invariant i == 0 ==> segments == []
    {
      SegmentsStep(template, i, template[literalStart..i]);
      var slot: Option<string> := None;
      if template[i] == '{' {
        slot := FindSlot(template[i + 1..]);
      }
      if slot.Some? {
        var next := i + |slot.value| + 2;
        if literalStart < i {
          segments := segments + [Text(template[literalStart..i])];
        }
        segments := segments + [Slot(i + 1, slot.value)];
        literalStart, i := next, next;
        assert template[literalStart..i] == "";
      } else {
        assert template[literalStart..i + 1] == template[literalStart..i] + [template[i]];
        i := i + 1;
      }
    }
    assert template[i..] == "" && template[literalStart..i] == template[literalStart..];
    SegmentsEnd(i, template[literalStart..]);
    if literalStart < |template| || segments == [] {
      segments := segments + [Text(template[literalStart..])];
    }
  }

  lemma SegmentsEnd(at: nat, text: string)
    ensures Segments("", at, text) == TextSegment(text)
  {
  }
}
