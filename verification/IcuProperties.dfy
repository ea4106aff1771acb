/** What holds of the scanners and the parser on every input. */
module IcuProperties {
  import opened Types
  import opened Icu

  // ----- one quoting rule -----

  /** The text with apostrophes and quoted characters blanked out: what is left is what the scanners act on. */
  function Mask(s: string, quoted: bool): (m: seq<Option<char>>)
    ensures |m| == |s|
  {
    if s == "" then []
    else if DoubledQuote(s) then [None, None] + Mask(s[2..], quoted)
    else if s[0] == '\'' then [None] + Mask(s[1..], !quoted)
    else [if quoted then None else Some(s[0])] + Mask(s[1..], quoted)
  }

  function Weight(c: Option<char>): int {
    if c == Some('{') then 1 else if c == Some('}') then -1 else 0
  }

  /** Opening braces less closing braces. */
  function Balance(m: seq<Option<char>>): int {
    if m == [] then 0 else Weight(m[0]) + Balance(m[1..])
  }

  /** A comma outside quotes where the braces before it balance. */
  ghost predicate CommaAt(m: seq<Option<char>>, depth: int, c: nat) {
    c < |m| && m[c] == Some(',') && depth + Balance(m[..c]) == 0
  }

  lemma CommaAtTail(x: Option<char>, rest: seq<Option<char>>, depth: int, k: nat)
    ensures CommaAt([x] + rest, depth, k + 1) <==> CommaAt(rest, depth + Weight(x), k)
    ensures CommaAt([x] + rest, depth, 0) <==> x == Some(',') && depth == 0
  {
    var m := [x] + rest;
    assert m[..0] == [];
    if k < |rest| {
      assert m[..k + 1] == [x] + rest[..k] && m[..k + 1][1..] == rest[..k];
    }
  }

  ghost predicate FirstComma(m: seq<Option<char>>, depth: int, c: nat) {
    CommaAt(m, depth, c) && forall k | 0 <= k < c :: !CommaAt(m, depth, k)
  }

  lemma FirstCommaTail(x: Option<char>, rest: seq<Option<char>>, depth: int, c: nat)
    ensures FirstComma([x] + rest, depth, c) <==>
            if x == Some(',') && depth == 0 then c == 0 else c > 0 && FirstComma(rest, depth + Weight(x), c - 1)
  {
    hide CommaAt;
    var m := [x] + rest;
    var deeper := depth + Weight(x);
    CommaAtTail(x, rest, depth, 0);
    if c > 0 {
      CommaAtTail(x, rest, depth, c - 1);
      if FirstComma(m, depth, c) {
        forall k | 0 <= k < c - 1 ensures !CommaAt(rest, deeper, k) { CommaAtTail(x, rest, depth, k); }
      } else if FirstComma(rest, deeper, c - 1) {
        forall k | 0 < k < c ensures !CommaAt(m, depth, k) { CommaAtTail(x, rest, depth, k - 1); }
      }
    }
  }

  lemma NoCommaInNothing(depth: int, c: nat)
    ensures !FirstComma([], depth, c)
  {
  }

  /** The comma scanner finds the first such comma, and only that one. */
  lemma {:induction false} CommaFromExact(s: string, depth: int, quoted: bool, c: nat)
    ensures CommaFrom(s, depth, quoted) == Some(c) <==> FirstComma(Mask(s, quoted), depth, c)
  {
    hide FirstComma, Mask, CommaFrom, CommaAt;
    CommaSteps(s, depth, quoted);
    if s == "" {
      NoCommaInNothing(depth, c);
    } else if DoubledQuote(s) {
      if c >= 2 { CommaFromExact(s[2..], depth, quoted, c - 2); }
      CommaPairExact(s, depth, quoted, c);
    } else {
      var x := Mask(s, quoted)[0];
      if c >= 1 { CommaFromExact(s[1..], depth + Weight(x), Flipped(s, quoted), c - 1); }
      CommaOneExact(s, depth, quoted, c);
    }
  }

  lemma CommaSteps(s: string, depth: int, quoted: bool)
    ensures s == "" ==> CommaFrom(s, depth, quoted) == None && Mask(s, quoted) == []
    ensures DoubledQuote(s) ==> CommaFrom(s, depth, quoted) == Plus(2, CommaFrom(s[2..], depth, quoted))
    ensures s != "" && !DoubledQuote(s) ==>
            var x := Mask(s, quoted)[0];
            CommaFrom(s, depth, quoted) ==
            if x == Some(',') && depth == 0 then Some(0)
            else Plus(1, CommaFrom(s[1..], depth + Weight(x), Flipped(s, quoted)))
  {
    if s != "" && !DoubledQuote(s) { MaskOne(s, quoted); }
  }

  lemma CommaOneExact(s: string, depth: int, quoted: bool, c: nat)
    requires s != "" && !DoubledQuote(s)
    ensures var x := Mask(s, quoted)[0];
            FirstComma(Mask(s, quoted), depth, c) <==>
            if x == Some(',') && depth == 0 then c == 0
            else c >= 1 && FirstComma(Mask(s[1..], Flipped(s, quoted)), depth + Weight(x), c - 1)
  {
    hide FirstComma, Mask;
    MaskOne(s, quoted);
    FirstCommaTail(Mask(s, quoted)[0], Mask(s[1..], Flipped(s, quoted)), depth, c);
  }

  lemma CommaPairExact(s: string, depth: int, quoted: bool, c: nat)
    requires DoubledQuote(s)
    ensures FirstComma(Mask(s, quoted), depth, c) <==> c >= 2 && FirstComma(Mask(s[2..], quoted), depth, c - 2)
  {
    hide FirstComma;
    var rest := Mask(s[2..], quoted);
    assert Mask(s, quoted) == [None] + ([None] + rest);
    FirstCommaTail(None, [None] + rest, depth, c);
    if c >= 1 { FirstCommaTail(None, rest, depth, c - 1); }
  }

  /** `depth` braces are open before the text and none after its first `n` characters. */
  ghost predicate ClosedAfter(m: seq<Option<char>>, depth: int, n: nat) {
    n <= |m| && depth + Balance(m[..n]) == 0
  }

  ghost predicate FirstClosed(m: seq<Option<char>>, depth: int, n: nat) {
    ClosedAfter(m, depth, n) && forall k | 0 <= k < n :: !ClosedAfter(m, depth, k)
  }

  lemma ClosedAfterTail(x: Option<char>, rest: seq<Option<char>>, depth: int, k: nat)
    ensures ClosedAfter([x] + rest, depth, k + 1) <==> ClosedAfter(rest, depth + Weight(x), k)
    ensures ClosedAfter([x] + rest, depth, 0) <==> depth == 0
  {
    var m := [x] + rest;
    assert m[..0] == [];
    if k <= |rest| {
      assert m[..k + 1] == [x] + rest[..k] && m[..k + 1][1..] == rest[..k];
    }
  }

  lemma FirstClosedTail(x: Option<char>, rest: seq<Option<char>>, depth: int, n: nat)
    requires depth != 0
    ensures FirstClosed([x] + rest, depth, n) <==> n > 0 && FirstClosed(rest, depth + Weight(x), n - 1)
  {
    hide ClosedAfter;
    var m := [x] + rest;
    var deeper := depth + Weight(x);
    ClosedAfterTail(x, rest, depth, 0);
    if n > 0 {
      ClosedAfterTail(x, rest, depth, n - 1);
      if FirstClosed(m, depth, n) {
        forall k | 0 <= k < n - 1 ensures !ClosedAfter(rest, deeper, k) { ClosedAfterTail(x, rest, depth, k); }
      } else if FirstClosed(rest, deeper, n - 1) {
        forall k | 0 < k < n ensures !ClosedAfter(m, depth, k) { ClosedAfterTail(x, rest, depth, k - 1); }
      }
    }
  }

  lemma FirstClosedNow(m: seq<Option<char>>, n: nat)
    ensures FirstClosed(m, 0, n) <==> n == 0
  {
    assert m[..0] == [] && ClosedAfter(m, 0, 0);
  }

  lemma FirstClosedNever(depth: int, n: nat)
    requires depth != 0
    ensures !FirstClosed([], depth, n)
  {
    var m: seq<Option<char>> := [];
    if n == 0 { assert m[..n] == []; }
  }

  /** The brace scanner stops at exactly the matching brace: after it, and nowhere before, all is closed. */
  lemma {:induction false} CloseFromExact(s: string, depth: int, quoted: bool, c: nat)
    requires depth > 0
    ensures CloseFrom(s, depth, quoted) == Some(c) <==> FirstClosed(Mask(s, quoted), depth, c + 1)
  {
    hide FirstClosed, Mask, CloseFrom, ClosedAfter;
    CloseSteps(s, depth, quoted);
    if s == "" {
      FirstClosedNever(depth, c + 1);
    } else if DoubledQuote(s) {
      if c >= 2 { CloseFromExact(s[2..], depth, quoted, c - 2); }
      ClosePairExact(s, depth, quoted, c);
    } else {
      var flipped, x := Flipped(s, quoted), Mask(s, quoted)[0];
      if depth + Weight(x) != 0 && c >= 1 { CloseFromExact(s[1..], depth + Weight(x), flipped, c - 1); }
      CloseOneExact(s, depth, quoted, c);
    }
  }

  /** Quoting after the first character, when that is not half of a doubled apostrophe. */
  function Flipped(s: string, quoted: bool): bool
    requires s != ""
  {
    if s[0] == '\'' then !quoted else quoted
  }

  lemma MaskOne(s: string, quoted: bool)
    requires s != "" && !DoubledQuote(s)
    ensures var x := Mask(s, quoted)[0];
            Mask(s, quoted) == [x] + Mask(s[1..], Flipped(s, quoted)) &&
            x == if s[0] == '\'' || quoted then None else Some(s[0])
  {
  }

  lemma CloseSteps(s: string, depth: int, quoted: bool)
    requires depth > 0
    ensures s == "" ==> CloseFrom(s, depth, quoted) == None && Mask(s, quoted) == []
    ensures DoubledQuote(s) ==> CloseFrom(s, depth, quoted) == Plus(2, CloseFrom(s[2..], depth, quoted))
    ensures s != "" && !DoubledQuote(s) ==>
            var deeper := depth + Weight(Mask(s, quoted)[0]);
            CloseFrom(s, depth, quoted) ==
            if deeper == 0 then Some(0) else Plus(1, CloseFrom(s[1..], deeper, Flipped(s, quoted)))
  {
    if s != "" && !DoubledQuote(s) { MaskOne(s, quoted); }
  }

  lemma CloseOneExact(s: string, depth: int, quoted: bool, c: nat)
    requires depth > 0 && s != "" && !DoubledQuote(s)
    ensures var x := Mask(s, quoted)[0]; var deeper := depth + Weight(x);
            FirstClosed(Mask(s, quoted), depth, c + 1) <==>
            if deeper == 0 then c == 0 else c >= 1 && FirstClosed(Mask(s[1..], Flipped(s, quoted)), deeper, c)
  {
    hide FirstClosed, Mask;
    MaskOne(s, quoted);
    var x, rest := Mask(s, quoted)[0], Mask(s[1..], Flipped(s, quoted));
    FirstClosedTail(x, rest, depth, c + 1);
    if depth + Weight(x) == 0 {
      FirstClosedNow(rest, c);
    } else if c == 0 {
      NotClosedYet(rest, depth + Weight(x));
    }
  }

  lemma ClosePairExact(s: string, depth: int, quoted: bool, c: nat)
    requires depth > 0 && DoubledQuote(s)
    ensures FirstClosed(Mask(s, quoted), depth, c + 1) <==> c >= 2 && FirstClosed(Mask(s[2..], quoted), depth, c - 1)
  {
    hide FirstClosed;
    var rest := Mask(s[2..], quoted);
    assert Mask(s, quoted) == [None] + ([None] + rest);
    FirstClosedTail(None, [None] + rest, depth, c + 1);
    FirstClosedTail(None, rest, depth, c);
    if c == 1 { NotClosedYet(rest, depth); }
  }

  lemma NotClosedYet(m: seq<Option<char>>, depth: int)
    requires depth != 0
    ensures !FirstClosed(m, depth, 0)
  {
    assert m[..0] == [];
  }

  /** The sub-message parser ends an arm's body at the brace the placeholder scanner takes for its match. */
  lemma {:induction false} SubMessageEndsAtClose(s: string, at: nat, quoted: bool, literal: string, allowHash: bool)
    requires SubMessage(s, at, quoted, literal, allowHash).Ok?
    ensures CloseFrom(s, 1, quoted) == Some(SubMessage(s, at, quoted, literal, allowHash).value.consumed - at - 1)
    decreases |s|
  {
    if DoubledQuote(s) {
      SubMessageEndsAtClose(s[2..], at + 2, quoted, literal + "'", allowHash);
    } else if s[0] == '\'' {
      SubMessageEndsAtClose(s[1..], at + 1, !quoted, literal, allowHash);
    } else if s[0] == '#' && !quoted {
      SubMessageEndsAtClose(s[1..], at + 1, quoted, "", allowHash);
    } else if s[0] != '}' || quoted {
      SubMessageEndsAtClose(s[1..], at + 1, quoted, literal + [s[0]], allowHash);
    }
  }

  // ----- splitting a template loses nothing -----

  function Source(segments: seq<Segment>): string {
    if segments == [] then "" else
      (match segments[0] case Text(t) => t case Slot(_, inner) => "{" + inner + "}") + Source(segments[1..])
  }

  lemma {:induction false} SourceAppend(x: seq<Segment>, y: seq<Segment>)
    ensures Source(x + y) == Source(x) + Source(y)
  {
    if x == [] {
      assert x + y == y;
    } else {
      assert (x + y)[1..] == x[1..] + y;
      SourceAppend(x[1..], y);
    }
  }

  /** Every placeholder says where in the template its inner text starts. */
  ghost predicate Located(segments: seq<Segment>, template: string) {
    forall i | 0 <= i < |segments| && segments[i].Slot? ::
      segments[i].offset == |Source(segments[..i])| + 1 &&
      segments[i].offset + |segments[i].inner| <= |template| &&
      template[segments[i].offset..segments[i].offset + |segments[i].inner|] == segments[i].inner
  }

  /** A placeholder without a comma is a plain name, one with a comma ends at its matching brace. */
  ghost predicate GoodSlot(inner: string) {
    if ',' in inner then TakesIcuBranch(inner + "}") && IcuClose(inner + "}") == Some(|inner|)
    else inner != "" && '{' !in inner && '}' !in inner
  }

  /** Literals are not empty and never next to each other, and every placeholder is good. */
  ghost predicate Tidy(segments: seq<Segment>) {
    (forall i | 0 <= i < |segments| :: match segments[i] case Text(t) => t != "" case Slot(_, inner) => GoodSlot(inner)) &&
    (forall i | 0 < i < |segments| :: segments[i - 1].Text? ==> segments[i].Slot?)
  }

  lemma {:induction false} CloseCut(s: string, depth: int, quoted: bool)
    requires CloseFrom(s, depth, quoted).Some?
    ensures var c := CloseFrom(s, depth, quoted).value; CloseFrom(s[..c + 1], depth, quoted) == Some(c)
  {
    var c := CloseFrom(s, depth, quoted).value;
    if DoubledQuote(s) {
      CloseCut(s[2..], depth, quoted);
      assert s[..c + 1][2..] == s[2..][..c - 1];
    } else if s[0] == '\'' {
      CloseCut(s[1..], depth, !quoted);
      assert s[..c + 1][1..] == s[1..][..c];
    } else if s[0] != '}' || quoted || depth != 1 {
      CloseCut(s[1..], depth + if quoted then 0 else if s[0] == '{' then 1 else if s[0] == '}' then -1 else 0, quoted);
      assert s[..c + 1][1..] == s[1..][..c];
    }
  }

  lemma {:induction false} IndexOfIs(s: string, c: char, k: nat)
    requires k < |s| && s[k] == c && c !in s[..k]
    ensures IndexOf(s, c) == Some(k)
  {
    if k > 0 {
      assert s[..k][0] == s[0] && s[1..][..k - 1] == s[..k][1..];
      IndexOfIs(s[1..], c, k - 1);
    }
  }

  lemma {:induction false} IndexOfFirst(s: string, c: char, k: nat)
    requires k < |s| && s[k] == c
    ensures IndexOf(s, c).Some? && IndexOf(s, c).value <= k
  {
    if s[0] != c { IndexOfFirst(s[1..], c, k - 1); }
  }

  /** The first occurrence is still the first when the text is cut behind it. */
  lemma IndexOfCut(s: string, c: char, end: nat)
    requires IndexOf(s, c).Some? && IndexOf(s, c).value < end <= |s|
    ensures IndexOf(s[..end], c) == IndexOf(s, c)
  {
    var k := IndexOf(s, c).value;
    assert s[..end][..k] == s[..k];
    IndexOfIs(s[..end], c, k);
  }

  lemma IcuSlotGood(rest: string)
    requires TakesIcuBranch(rest) && IcuClose(rest).Some?
    ensures var inner := rest[..IcuClose(rest).value]; ',' in inner && GoodSlot(inner)
  {
    var c := IcuClose(rest).value;
    var inner := rest[..c];
    var whole := rest[..c + 1];
    assert whole == inner + "}";
    IndexOfFirst(rest, '}', c);
    IndexOfCut(rest, ',', c + 1);
    IndexOfCut(rest, '}', c + 1);
    CloseCut(rest, 1, false);
    assert inner[IndexOf(rest, ',').value] == ',';
  }

  lemma PlainSlotGood(rest: string)
    requires !TakesIcuBranch(rest) && SlotAt(rest).Some?
    ensures ',' !in SlotAt(rest).value && GoodSlot(SlotAt(rest).value)
  {
    var inner, comma := SlotAt(rest).value, IndexOf(rest, ',');
    assert forall k | 0 <= k < |inner| :: inner[k] == rest[k];
    if comma.Some? {
      assert forall k | 0 <= k < |inner| :: inner[k] == rest[..comma.value][k];
    }
  }

  /** A placeholder's inner text has a comma exactly when it was taken for an ICU placeholder. */
  lemma SlotAtGood(rest: string)
    requires SlotAt(rest).Some?
    ensures GoodSlot(SlotAt(rest).value)
    ensures ',' in SlotAt(rest).value <==> TakesIcuBranch(rest)
  {
    if TakesIcuBranch(rest) { IcuSlotGood(rest); } else { PlainSlotGood(rest); }
  }

  lemma {:induction false} SegmentsLossless(s: string, at: nat, text: string)
    ensures Source(Segments(s, at, text)) == text + s
    decreases |s|
  {
    hide SlotAt, Source;
    SourceText(text);
    if s == "" {
      assert text + s == text;
    } else {
      var slot := if s[0] == '{' then SlotAt(s[1..]) else None;
      if slot.Some? {
        var inner := slot.value;
        var rest := s[|inner| + 2..];
        SegmentsLossless(rest, at + |inner| + 2, "");
        SourceSlot(TextSegment(text), Slot(at + 1, inner), Segments(rest, at + |inner| + 2, ""));
        SlotText(s, inner, text);
      } else {
        SegmentsLossless(s[1..], at + 1, text + [s[0]]);
        assert text + s == text + [s[0]] + s[1..];
      }
    }
  }

  lemma SlotText(s: string, inner: string, text: string)
    requires s != "" && s[0] == '{' && SlotAt(s[1..]) == Some(inner)
    ensures text + ("{" + inner + "}") + ("" + s[|inner| + 2..]) == text + s
  {
    assert s[1..][..|inner| + 1] == inner + "}" && s == "{" + (inner + "}") + s[|inner| + 2..];
  }

  lemma SourceOne(slot: Segment)
    requires slot.Slot?
    ensures Source([slot]) == "{" + slot.inner + "}"
  {
    assert [slot][1..] == [];
  }

  lemma SourceSlot(x: seq<Segment>, slot: Segment, y: seq<Segment>)
    requires slot.Slot?
    ensures Source(x + [slot] + y) == Source(x) + ("{" + slot.inner + "}") + Source(y)
  {
    hide Source;
    SourceAppend(x + [slot], y);
    SourceAppend(x, [slot]);
    SourceOne(slot);
  }

  lemma SourceText(text: string)
    ensures Source(TextSegment(text)) == text
  {
    if text != "" { assert [Text(text)][1..] == []; }
  }

  lemma {:induction false} SegmentsTidy(s: string, at: nat, text: string)
    ensures Tidy(Segments(s, at, text))
    decreases |s|
  {
    hide SlotAt, GoodSlot;
    if s != "" {
      var slot := if s[0] == '{' then SlotAt(s[1..]) else None;
      if slot.Some? {
        SlotAtGood(s[1..]);
        SegmentsTidy(s[|slot.value| + 2..], at + |slot.value| + 2, "");
      } else {
        SegmentsTidy(s[1..], at + 1, text + [s[0]]);
      }
    }
  }

  /** The offsets a scan that starts after `start` characters should report. */
  ghost predicate OffsetsFrom(segments: seq<Segment>, start: nat) {
    forall i | 0 <= i < |segments| && segments[i].Slot? :: segments[i].offset == start + |Source(segments[..i])| + 1
  }

  lemma OffsetsCons(x: Segment, rest: seq<Segment>, start: nat)
    requires OffsetsFrom(rest, start + |Source([x])|) && OffsetsFrom([x], start)
    ensures OffsetsFrom([x] + rest, start)
  {
    var all := [x] + rest;
    forall i | 1 <= i < |all| ensures |Source(all[..i])| == |Source([x])| + |Source(rest[..i - 1])| {
      assert all[..i] == [x] + rest[..i - 1];
      SourceAppend([x], rest[..i - 1]);
    }
    assert all[..0] == [x][..0];
  }

  lemma TextThenSlot(text: string, inner: string, rest: seq<Segment>, at: nat)
    requires |text| <= at && OffsetsFrom(rest, at + |inner| + 2)
    ensures OffsetsFrom(TextSegment(text) + [Slot(at + 1, inner)] + rest, at - |text|)
  {
    var x := Slot(at + 1, inner);
    assert [x][1..] == [] && Source([x]) == "{" + inner + "}";
    assert [x][..0] == [];
    OffsetsCons(x, rest, at);
    if text != "" {
      SourceText(text);
      OffsetsCons(Text(text), [x] + rest, at - |text|);
      assert TextSegment(text) + [x] + rest == [Text(text)] + ([x] + rest);
    } else {
      assert TextSegment(text) + [x] + rest == [x] + rest;
    }
  }

  lemma {:induction false} SegmentsOffsets(s: string, at: nat, text: string)
    requires |text| <= at
    ensures OffsetsFrom(Segments(s, at, text), at - |text|)
    decreases |s|
  {
    hide SlotAt, Source;
    if s != "" {
      var slot := if s[0] == '{' then SlotAt(s[1..]) else None;
      if slot.Some? {
        var inner := slot.value;
        SegmentsOffsets(s[|inner| + 2..], at + |inner| + 2, "");
        TextThenSlot(text, inner, Segments(s[|inner| + 2..], at + |inner| + 2, ""), at);
      } else {
        SegmentsOffsets(s[1..], at + 1, text + [s[0]]);
      }
    }
  }

  lemma SlotLocated(segments: seq<Segment>, i: nat, template: string)
    requires i < |segments| && segments[i].Slot? && Source(segments) == template
    requires segments[i].offset == |Source(segments[..i])| + 1
    ensures segments[i].offset + |segments[i].inner| <= |template|
    ensures template[segments[i].offset..segments[i].offset + |segments[i].inner|] == segments[i].inner
  {
    hide Source;
    var slot := segments[i];
    assert segments == segments[..i] + [slot] + segments[i + 1..];
    SourceSlot(segments[..i], slot, segments[i + 1..]);
  }

  lemma SourceEmptyText()
    ensures Source([Text("")]) == ""
  {
    assert [Text("")][1..] == [];
  }

  /** Splitting is total and loses nothing: the segments concatenate back to the template, each placeholder
      lies where it says, and but for the one empty literal of an empty template they are tidy. */
  lemma SplitLossless(template: string)
    ensures Source(SplitTemplate(template)) == template
    ensures Located(SplitTemplate(template), template)
    ensures template != "" ==> Tidy(SplitTemplate(template))
  {
    hide Segments, Source, Tidy;
    var segments := SplitTemplate(template);
    if template == "" {
      SourceEmptyText();
    } else {
      SegmentsLossless(template, 0, "");
      SegmentsTidy(template, 0, "");
      SegmentsOffsets(template, 0, "");
      forall i | 0 <= i < |segments| && segments[i].Slot?
        ensures segments[i].offset == |Source(segments[..i])| + 1
        ensures segments[i].offset + |segments[i].inner| <= |template|
        ensures template[segments[i].offset..segments[i].offset + |segments[i].inner|] == segments[i].inner
      {
        SlotLocated(segments, i, template);
      }
    }
  }

  // ----- nothing that is a placeholder is left as text -----

  /** A comma comes before any closing brace. */
  ghost predicate CommaFirst(rest: string) {
    exists c: nat :: c < |rest| && rest[c] == ',' && '}' !in rest[..c]
  }

  /** `inner` is a placeholder's text, whose opening brace comes before `rest`: with a comma before any closing brace it
      runs to the brace that closes it, otherwise it is a name without braces before the first one. */
  ghost predicate IsSlot(rest: string, inner: string) {
    |inner| < |rest| && rest[..|inner|] == inner && rest[|inner|] == '}' &&
    if CommaFirst(rest) then FirstClosed(Mask(rest, false), 1, |inner| + 1)
    else inner != "" && '{' !in inner && '}' !in inner
  }

  lemma CommaFirstExact(rest: string)
    ensures TakesIcuBranch(rest) <==> CommaFirst(rest)
  {
    hide IndexOf;
    var comma, close := IndexOf(rest, ','), IndexOf(rest, '}');
    if TakesIcuBranch(rest) {
      assert '}' !in rest[..comma.value] by {
        if close.Some? { assert forall k | 0 <= k < comma.value :: rest[k] == rest[..close.value][k]; }
      }
    }
    if c: nat :| c < |rest| && rest[c] == ',' && '}' !in rest[..c] {
      IndexOfFirst(rest, ',', c);
      assert forall k | 0 <= k < c :: rest[k] == rest[..c][k];
    }
  }

  /** The splitter takes for a placeholder exactly what is one. */
  lemma SlotAtExact(rest: string, inner: string)
    ensures SlotAt(rest) == Some(inner) <==> IsSlot(rest, inner)
  {
    hide FirstClosed, Mask, CommaFirst, IndexOf;
    CommaFirstExact(rest);
    if TakesIcuBranch(rest) {
      CloseFromExact(rest, 1, false, |inner|);
    } else {
      PlainSlotExact(rest, inner);
    }
  }

  lemma PlainSlotExact(rest: string, inner: string)
    requires !TakesIcuBranch(rest)
    ensures SlotAt(rest) == Some(inner) <==>
            |inner| < |rest| && rest[..|inner|] == inner && rest[|inner|] == '}' && inner != "" && '{' !in inner && '}' !in inner
  {
    if |inner| < |rest| && rest[..|inner|] == inner && rest[|inner|] == '}' && '}' !in inner {
      IndexOfIs(rest, '}', |inner|);
    }
  }

  ghost predicate Opens(rest: string) {
    exists inner :: IsSlot(rest, inner)
  }

  /** The text begins with `t`, no brace of which opens a placeholder. */
  ghost predicate Inactive(t: string, text: string) {
    t <= text && forall k: nat | k < |t| && t[k] == '{' :: !Opens(text[k + 1..])
  }

  /** The segments of `text`: every placeholder is one, and no brace in a literal opens one. */
  ghost predicate Complete(segments: seq<Segment>, text: string) {
    if segments == [] then text == ""
    else
      match segments[0]
      case Text(t) => Inactive(t, text) && Complete(segments[1..], text[|t|..])
      case Slot(_, inner) =>
        text != "" && text[0] == '{' && IsSlot(text[1..], inner) && Complete(segments[1..], text[|inner| + 2..])
  }

  lemma NoSlot(rest: string)
    requires SlotAt(rest).None?
    ensures !Opens(rest)
  {
    hide SlotAt, IsSlot;
    forall inner ensures !IsSlot(rest, inner) { SlotAtExact(rest, inner); }
  }

  lemma TextComplete(t: string, segments: seq<Segment>, text: string)
    requires Inactive(t, text) && Complete(segments, text[|t|..])
    ensures Complete(TextSegment(t) + segments, text)
  {
    hide IsSlot;
    if t == "" {
      assert TextSegment(t) + segments == segments && text[0..] == text;
    } else {
      assert (TextSegment(t) + segments)[1..] == segments;
    }
  }

  lemma SlotComplete(offset: nat, inner: string, segments: seq<Segment>, text: string)
    requires text != "" && text[0] == '{' && SlotAt(text[1..]) == Some(inner) && Complete(segments, text[|inner| + 2..])
    ensures Complete([Slot(offset, inner)] + segments, text)
  {
    hide SlotAt, IsSlot;
    SlotAtExact(text[1..], inner);
    assert ([Slot(offset, inner)] + segments)[1..] == segments;
  }

  lemma {:induction false} SegmentsComplete(s: string, at: nat, text: string)
    requires Inactive(text, text + s)
    ensures Complete(Segments(s, at, text), text + s)
    decreases |s|
  {
    hide SlotAt, Complete, IsSlot;
    var whole := text + s;
    assert whole[|text|..] == s;
    if s == "" {
      NothingComplete();
      TextComplete(text, [], whole);
      assert TextSegment(text) + [] == TextSegment(text);
    } else {
      var slot := if s[0] == '{' then SlotAt(s[1..]) else None;
      if slot.Some? {
        var rest := s[|slot.value| + 2..];
        var more := Segments(rest, at + |slot.value| + 2, "");
        assert "" + rest == rest;
        SegmentsComplete(rest, at + |slot.value| + 2, "");
        SlotComplete(at + 1, slot.value, more, s);
        TextComplete(text, [Slot(at + 1, slot.value)] + more, whole);
        assert TextSegment(text) + ([Slot(at + 1, slot.value)] + more) == TextSegment(text) + [Slot(at + 1, slot.value)] + more;
      } else {
        CharScanned(s, text);
        SegmentsComplete(s[1..], at + 1, text + [s[0]]);
      }
    }
  }

  lemma NothingComplete()
    ensures Complete([], "")
  {
  }

  lemma CharScanned(s: string, text: string)
    requires s != "" && Inactive(text, text + s) && (s[0] == '{' ==> SlotAt(s[1..]).None?)
    ensures text + [s[0]] + s[1..] == text + s && Inactive(text + [s[0]], text + s)
  {
    hide SlotAt, Opens;
    assert text + [s[0]] + s[1..] == text + s;
    if s[0] == '{' { NoSlot(s[1..]); }
    assert (text + s)[|text| + 1..] == s[1..];
  }

  /** Whatever is a placeholder becomes one, from left to right, and nothing else does. */
  lemma SplitComplete(template: string)
    ensures Complete(SplitTemplate(template), template)
  {
    if template == "" {
      assert [Text("")][1..] == [];
    } else {
      assert "" + template == template;
      SegmentsComplete(template, 0, "");
    }
  }

  // ----- error spans -----

  /** The span ends at most one place behind a text of `limit` characters. */
  predicate SpanWithin(e: ParseError, limit: nat) {
    e.offset + e.length <= limit + 1
  }

  lemma {:induction false} SubMessageSpan(s: string, at: nat, quoted: bool, literal: string, allowHash: bool)
    ensures var r := SubMessage(s, at, quoted, literal, allowHash); r.Err? ==> SpanWithin(r.error, at + |s|)
    decreases |s|
  {
    if s == "" {
    } else if DoubledQuote(s) {
      SubMessageSpan(s[2..], at + 2, quoted, literal + "'", allowHash);
    } else if s[0] == '\'' {
      SubMessageSpan(s[1..], at + 1, !quoted, literal, allowHash);
    } else if s[0] == '#' && !quoted {
      SubMessageSpan(s[1..], at + 1, quoted, "", allowHash);
    } else {
      SubMessageSpan(s[1..], at + 1, quoted, literal + [s[0]], allowHash);
    }
  }

  lemma KeyErrorSpan(key: string, at: nat, known: set<string>, plural: bool)
    ensures var e := KeyError(key, at, known, plural); e.Some? ==> SpanWithin(e.value, at + |key|)
  {
  }

  lemma ReadArmSpan(s: string, at: nat, known: set<string>, plural: bool)
    ensures var turn := ReadArm(s, at, known, plural); turn.Wrong? ==> SpanWithin(turn.error, at + |s|)
  {
    hide SpaceRun, KeyRun, SubMessage, KeyError;
    var start := SpaceRun(s);
    if start < |s| {
      var end := start + KeyRun(s[start..]);
      KeyErrorSpan(s[start..end], at + start, known, plural);
      var brace := end + SpaceRun(s[end..]);
      if brace < |s| {
        SubMessageSpan(s[brace + 1..], 0, false, "", plural);
      }
    }
  }

  lemma {:induction false} ParseArmsSpan(s: string, at: nat, known: set<string>, plural: bool)
    ensures var r := ParseArms(s, at, known, plural); r.Err? ==> SpanWithin(r.error, at + |s|)
    decreases |s|
  {
    hide ReadArm;
    ReadArmSpan(s, at, known, plural);
    match ReadArm(s, at, known, plural)
    case Arm(key, _, length) => ParseArmsSpan(s[length..], at + length, known + {key}, plural);
    case _ =>
  }

  /** Every error points into the placeholder's inner text or just behind it. */
  lemma ErrorSpanWithin(inner: string)
    ensures ParsePlaceholder(inner).Err? ==> SpanWithin(ParsePlaceholder(inner).error, |inner|)
  {
    hide TopLevelComma, Trim, ParseFormat;
    var nameEnd := TopLevelComma(inner);
    if nameEnd.Some? {
      FormatSpan(Trim(inner[..nameEnd.value]), inner[nameEnd.value + 1..], nameEnd.value + 1);
    }
  }

  lemma FormatSpan(name: string, rest: string, at: nat)
    ensures var r := ParseFormat(name, rest, at); r.Err? ==> SpanWithin(r.error, at + |rest|)
  {
    hide TopLevelComma, Trim, ParseKeyword;
    match TopLevelComma(rest)
    case Some(end) => KeywordSpan(name, Trim(rest[..end]), end, Some(rest[end + 1..]), at, at + end + 1);
    case None => KeywordSpan(name, Trim(rest), |rest|, None, at, at + |rest|);
  }

  lemma KeywordSpan(name: string, keyword: string, width: nat, tail: Option<string>, at: nat, tailAt: nat)
    requires tailAt == at + width + if tail.Some? then 1 else 0
    ensures var r := ParseKeyword(name, keyword, width, tail, at, tailAt);
            r.Err? ==> SpanWithin(r.error, tailAt + if tail.Some? then |tail.value| else 0)
  {
    hide TopLevelComma, Trim, ParseArms;
    if tail.Some? {
      ParseArmsSpan(tail.value, tailAt, {}, true);
      ParseArmsSpan(tail.value, tailAt, {}, false);
    }
  }

  // ----- what a successful parse returns -----

  /** Literals are not empty and never next to each other; `#` only where it is allowed. */
  ghost predicate TidyMessage(m: Message, allowHash: bool) {
    (forall i | 0 <= i < |m| :: if m[i].Hash? then allowHash else m[i].text != "") &&
    (forall i | 0 < i < |m| :: m[i - 1].Literal? ==> m[i].Hash?)
  }

  lemma {:induction false} SubMessageTidy(s: string, at: nat, quoted: bool, literal: string, allowHash: bool)
    ensures var r := SubMessage(s, at, quoted, literal, allowHash); r.Ok? ==> TidyMessage(r.value.message, allowHash)
    decreases |s|
  {
    if s == "" {
    } else if DoubledQuote(s) {
      SubMessageTidy(s[2..], at + 2, quoted, literal + "'", allowHash);
    } else if s[0] == '\'' {
      SubMessageTidy(s[1..], at + 1, !quoted, literal, allowHash);
    } else if s[0] == '#' && !quoted {
      SubMessageTidy(s[1..], at + 1, quoted, "", allowHash);
    } else {
      SubMessageTidy(s[1..], at + 1, quoted, literal + [s[0]], allowHash);
    }
  }

  /** Keys are distinct, new, not empty, and categories where `plural`; bodies are tidy. */
  ghost predicate GoodArms(arms: Arms, known: set<string>, plural: bool) {
    (forall i | 0 <= i < |arms| ::
       arms[i].0 != "" && arms[i].0 !in known && (plural ==> ParseCategory(arms[i].0).Some?) &&
       TidyMessage(arms[i].1, plural)) &&
    (forall i, j | 0 <= i < j < |arms| :: arms[i].0 != arms[j].0)
  }

  lemma {:induction false} ParseArmsGood(s: string, at: nat, known: set<string>, plural: bool)
    ensures var r := ParseArms(s, at, known, plural); r.Ok? ==> GoodArms(r.value, known, plural)
    decreases |s|
  {
    hide ReadArm, TidyMessage, ParseCategory;
    match ReadArm(s, at, known, plural)
    case Arm(key, message, length) =>
      ReadArmGood(s, at, known, plural);
      ParseArmsGood(s[length..], at + length, known + {key}, plural);
    case _ =>
  }

  lemma ReadArmGood(s: string, at: nat, known: set<string>, plural: bool)
    ensures var turn := ReadArm(s, at, known, plural);
      turn.Arm? ==> turn.key != "" && turn.key !in known && (plural ==> ParseCategory(turn.key).Some?) &&
                    TidyMessage(turn.message, plural)
  {
    hide SpaceRun, KeyRun, SubMessage, TidyMessage;
    if ReadArm(s, at, known, plural).Arm? {
      var end := SpaceRun(s) + KeyRun(s[SpaceRun(s)..]);
      var brace := end + SpaceRun(s[end..]);
      SubMessageTidy(s[brace + 1..], 0, false, "", plural);
    }
  }

  lemma CategoryInverse(key: string)
    requires ParseCategory(key).Some?
    ensures CategoryText(ParseCategory(key).value) == key
  {
  }

  lemma {:induction false} ToPluralPointwise(arms: Arms)
    requires forall i | 0 <= i < |arms| :: ParseCategory(arms[i].0).Some?
    ensures |ToPlural(arms)| == |arms|
    ensures forall i | 0 <= i < |arms| ::
      CategoryText(ToPlural(arms)[i].0) == arms[i].0 && ToPlural(arms)[i].1 == arms[i].1
  {
    if arms != [] {
      CategoryInverse(arms[0].0);
      ToPluralPointwise(arms[1..]);
      assert forall i | 1 <= i < |arms| :: arms[i] == arms[1..][i - 1];
    }
  }

  ghost predicate GoodPlaceholder(p: Placeholder) {
    p.name != "" &&
    match p.kind
    case Plural(arms) =>
      (exists i | 0 <= i < |arms| :: arms[i].0 == Other) &&
      (forall i, j | 0 <= i < j < |arms| :: arms[i].0 != arms[j].0) &&
      (forall i | 0 <= i < |arms| :: TidyMessage(arms[i].1, true))
    case Select(arms) =>
      (exists i | 0 <= i < |arms| :: arms[i].0 == "other") &&
      (forall i, j | 0 <= i < j < |arms| :: arms[i].0 != arms[j].0) &&
      (forall i | 0 <= i < |arms| :: arms[i].0 != "" && TidyMessage(arms[i].1, false))
    case _ => true
  }

  lemma PluralGood(arms: Arms)
    requires GoodArms(arms, {}, true) && HasOther(arms)
    ensures exists i | 0 <= i < |ToPlural(arms)| :: ToPlural(arms)[i].0 == Other
    ensures forall i, j | 0 <= i < j < |ToPlural(arms)| :: ToPlural(arms)[i].0 != ToPlural(arms)[j].0
    ensures forall i | 0 <= i < |ToPlural(arms)| :: TidyMessage(ToPlural(arms)[i].1, true)
  {
    ToPluralPointwise(arms);
    var i :| 0 <= i < |arms| && arms[i].0 == "other";
    assert CategoryText(ToPlural(arms)[i].0) == "other";
    assert ToPlural(arms)[i].0 == Other;
  }

  /** Every placeholder the parser accepts has a name, distinct arm keys, an `other` arm and tidy bodies. */
  lemma ParsedPlaceholderGood(inner: string)
    ensures ParsePlaceholder(inner).Ok? ==> GoodPlaceholder(ParsePlaceholder(inner).value)
  {
    hide TopLevelComma, ParseArms, Trim;
    var nameEnd := TopLevelComma(inner);
    if nameEnd.Some? {
      var rest, at := inner[nameEnd.value + 1..], nameEnd.value + 1;
      var end := TopLevelComma(rest);
      if end.Some? {
        var tail, tailAt := rest[end.value + 1..], at + end.value + 1;
        ParseArmsGood(tail, tailAt, {}, true);
        ParseArmsGood(tail, tailAt, {}, false);
        var arms := ParseArms(tail, tailAt, {}, true);
        if arms.Ok? && HasOther(arms.value) {
          PluralGood(arms.value);
        }
      }
    }
  }
}
