/** The placeholder language without the parser: which texts spell which placeholder, and that the parser accepts exactly
    these. */
module IcuLanguage {
  import opened Types
  import opened Icu
  import opened IcuProperties
  import opened IcuRoundTrip

  // ----- arm bodies -----

  datatype Token = Verbatim(c: char) | Count

  /** The text with its quoting resolved. */
  function Tokens(s: string, quoted: bool): seq<Token> {
    if s == "" then []
    else if DoubledQuote(s) then [Verbatim('\'')] + Tokens(s[2..], quoted)
    else if s[0] == '\'' then Tokens(s[1..], !quoted)
    else [if s[0] == '#' && !quoted then Count else Verbatim(s[0])] + Tokens(s[1..], quoted)
  }

  /** Whether a quoted stretch is open behind the text. */
  predicate OpenAfter(s: string, quoted: bool) {
    if s == "" then quoted
    else if DoubledQuote(s) then OpenAfter(s[2..], quoted)
    else OpenAfter(s[1..], Flipped(s, quoted))
  }

  function Verbatims(text: string): seq<Token> {
    seq(|text|, i requires 0 <= i < |text| => Verbatim(text[i]))
  }

  function TokensOf(m: Message): seq<Token> {
    if m == [] then []
    else (match m[0] case Literal(text) => Verbatims(text) case Hash => [Count]) + TokensOf(m[1..])
  }

  /** No brace is outside quotes, and a `#` only where it counts. */
  ghost predicate Clean(m: seq<Option<char>>, allowHash: bool) {
    forall i | 0 <= i < |m| :: m[i] != Some('{') && m[i] != Some('}') && (m[i] == Some('#') ==> allowHash)
  }

  /** The text between an arm's braces spells the message. */
  ghost predicate SpellsMessage(body: string, m: Message, allowHash: bool) {
    Clean(Mask(body, false), allowHash) && !OpenAfter(body, false) && TokensOf(m) == Tokens(body, false) &&
    TidyMessage(m, allowHash)
  }

  /** What is left of a body of `n` characters, behind `literal`, spells the message. */
  ghost predicate Continues(s: string, n: nat, quoted: bool, literal: string, m: Message, allowHash: bool) {
    n < |s| && s[n] == '}' && Clean(Mask(s[..n], quoted), allowHash) && !OpenAfter(s[..n], quoted) &&
    TokensOf(m) == Verbatims(literal) + Tokens(s[..n], quoted) && TidyMessage(m, allowHash)
  }

  lemma CleanCons(x: Option<char>, rest: seq<Option<char>>, allowHash: bool)
    ensures Clean([x] + rest, allowHash) <==>
            x != Some('{') && x != Some('}') && (x == Some('#') ==> allowHash) && Clean(rest, allowHash)
  {
    var m := [x] + rest;
    assert m[0] == x && forall i | 0 <= i < |rest| :: m[i + 1] == rest[i];
  }

  lemma VerbatimsMore(literal: string, c: char)
    ensures Verbatims(literal + [c]) == Verbatims(literal) + [Verbatim(c)]
  {
  }

  lemma ContinuesPair(s: string, n: nat, quoted: bool, literal: string, m: Message, allowHash: bool)
    requires DoubledQuote(s)
    ensures Continues(s, n, quoted, literal, m, allowHash) <==>
            n >= 2 && Continues(s[2..], n - 2, quoted, literal + "'", m, allowHash)
  {
    hide TidyMessage, Clean;
    if n >= 2 && n < |s| {
      var body, rest := s[..n], s[2..][..n - 2];
      assert body[2..] == rest && DoubledQuote(body);
      CleanCons(None, [None] + Mask(rest, quoted), allowHash);
      CleanCons(None, Mask(rest, quoted), allowHash);
      assert Mask(body, quoted) == [None] + ([None] + Mask(rest, quoted));
      VerbatimsMore(literal, '\'');
      assert Verbatims(literal) + Tokens(body, quoted) == Verbatims(literal + "'") + Tokens(rest, quoted);
    }
  }

  lemma ContinuesQuote(s: string, n: nat, quoted: bool, literal: string, m: Message, allowHash: bool)
    requires s != "" && !DoubledQuote(s) && s[0] == '\''
    ensures Continues(s, n, quoted, literal, m, allowHash) <==>
            n >= 1 && Continues(s[1..], n - 1, !quoted, literal, m, allowHash)
  {
    hide TidyMessage, Clean;
    if n >= 1 && n < |s| {
      var body, rest := s[..n], s[1..][..n - 1];
      assert body[1..] == rest && !DoubledQuote(body);
      CleanCons(None, Mask(rest, !quoted), allowHash);
    }
  }

  lemma ContinuesChar(s: string, n: nat, quoted: bool, literal: string, m: Message, allowHash: bool)
    requires s != "" && s[0] != '\'' && (quoted || (s[0] != '{' && s[0] != '}' && s[0] != '#'))
    ensures Continues(s, n, quoted, literal, m, allowHash) <==>
            n >= 1 && Continues(s[1..], n - 1, quoted, literal + [s[0]], m, allowHash)
  {
    hide TidyMessage, Clean;
    if n >= 1 && n < |s| {
      var body, rest := s[..n], s[1..][..n - 1];
      assert body[1..] == rest && !DoubledQuote(body);
      CleanCons(if quoted then None else Some(s[0]), Mask(rest, quoted), allowHash);
      VerbatimsMore(literal, s[0]);
      assert Verbatims(literal) + Tokens(body, quoted) == Verbatims(literal + [s[0]]) + Tokens(rest, quoted);
    } else if n == 0 && quoted {
      assert s[..0] == "" && OpenAfter("", quoted);
    }
  }

  lemma {:induction false} VerbatimsEqual(x: string, y: string)
    requires Verbatims(x) == Verbatims(y)
    ensures x == y
  {
    assert |x| == |Verbatims(x)| && |y| == |Verbatims(y)|;
    forall i | 0 <= i < |x| ensures x[i] == y[i] { assert Verbatims(x)[i] == Verbatims(y)[i]; }
  }

  /** A tidy message is told by its tokens, as far as the first literal. */
  lemma TidyFront(m: Message, literal: string, rest: seq<Token>, allowHash: bool)
    requires TidyMessage(m, allowHash) && TokensOf(m) == Verbatims(literal) + rest && (rest == [] || rest[0] == Count)
    ensures literal == "" && m != [] ==> m[0].Hash? && TokensOf(m) == rest
    ensures literal != "" ==> m != [] && m[0] == Literal(literal) && TokensOf(m[1..]) == rest
    ensures m == [] ==> literal == "" && rest == []
  {
    if m == [] {
      assert |Verbatims(literal)| == |literal|;
    } else if m[0].Hash? {
      assert TokensOf(m)[0] == Count;
    } else {
      TokensAfterLiteral(m, allowHash);
      LiteralFront(m[0].text, TokensOf(m[1..]), literal, rest);
    }
  }

  lemma TokensAfterLiteral(m: Message, allowHash: bool)
    requires m != [] && m[0].Literal? && TidyMessage(m, allowHash)
    ensures m[0].text != "" && (m[1..] == [] || TokensOf(m[1..])[0] == Count)
    ensures TokensOf(m) == Verbatims(m[0].text) + TokensOf(m[1..])
  {
    if m[1..] != [] { assert m[1].Hash?; }
  }

  lemma LiteralLonger(x: string, xs: seq<Token>, y: string, ys: seq<Token>)
    requires |x| < |y| && (xs == [] || xs[0] == Count)
    ensures Verbatims(x) + xs != Verbatims(y) + ys
  {
    assert (Verbatims(y) + ys)[|x|] == Verbatim(y[|x|]);
    if xs != [] { assert (Verbatims(x) + xs)[|x|] == Count; }
  }

  lemma LiteralFront(x: string, xs: seq<Token>, y: string, ys: seq<Token>)
    requires Verbatims(x) + xs == Verbatims(y) + ys && (xs == [] || xs[0] == Count) && (ys == [] || ys[0] == Count)
    ensures x == y && xs == ys
  {
    var all := Verbatims(x) + xs;
    if |x| < |y| { LiteralLonger(x, xs, y, ys); } else if |y| < |x| { LiteralLonger(y, ys, x, xs); }
    assert all[..|x|] == Verbatims(x) && all[..|y|] == Verbatims(y) && all[|x|..] == xs && all[|y|..] == ys;
    VerbatimsEqual(x, y);
  }

  lemma ContinuesEnd(s: string, n: nat, literal: string, m: Message, allowHash: bool)
    requires s != "" && s[0] == '}'
    ensures Continues(s, n, false, literal, m, allowHash) <==> n == 0 && m == Flush(literal)
  {
    if n == 0 {
      assert s[..0] == "" && Verbatims(literal) + [] == Verbatims(literal);
      if Continues(s, n, false, literal, m, allowHash) {
        TidyFront(m, literal, [], allowHash);
        if literal != "" && m[1..] != [] { TokensAfterLiteral(m, allowHash); }
        assert m == if literal == "" then m else [m[0]] + m[1..];
      }
      FlushTokens(literal, allowHash);
    } else if n < |s| {
      assert !DoubledQuote(s[..n]);
      assert Mask(s[..n], false)[0] == Some('}');
    }
  }

  lemma FlushTokens(literal: string, allowHash: bool)
    ensures TokensOf(Flush(literal)) == Verbatims(literal) && TidyMessage(Flush(literal), allowHash)
  {
    if literal != "" {
      assert Flush(literal)[1..] == [] && Verbatims(literal) + [] == Verbatims(literal);
    }
  }

  lemma ContinuesBrace(s: string, n: nat, literal: string, m: Message, allowHash: bool)
    requires s != "" && (s[0] == '{' || (s[0] == '#' && !allowHash))
    ensures !Continues(s, n, false, literal, m, allowHash)
  {
    if 0 < n < |s| {
      assert !DoubledQuote(s[..n]);
      assert Mask(s[..n], false)[0] == Some(s[0]);
    }
  }

  /** Whether the message goes on behind a `#` as `more`. */
  lemma ContinuesHash(s: string, n: nat, literal: string, m: Message, more: Message, allowHash: bool)
    requires s != "" && s[0] == '#' && allowHash && m == Flush(literal) + [Hash] + more
    ensures Continues(s, n, false, literal, m, allowHash) <==> n >= 1 && Continues(s[1..], n - 1, false, "", more, allowHash)
  {
    hide Clean, TidyMessage;
    if 0 < n < |s| {
      var body, rest := s[..n], s[1..][..n - 1];
      assert body[1..] == rest && !DoubledQuote(body);
      CleanCons(Some('#'), Mask(rest, false), allowHash);
      HashTokens(literal, more);
      TidyHash(literal, more, allowHash);
      var tokens := Tokens(rest, false);
      assert Tokens(body, false) == [Count] + tokens;
      assert Verbatims("") + tokens == tokens;
      assert TokensOf(m)[|literal| + 1..] == TokensOf(more);
      assert (Verbatims(literal) + ([Count] + tokens))[|literal| + 1..] == tokens;
    }
  }

  lemma HashTokens(literal: string, more: Message)
    ensures TokensOf(Flush(literal) + [Hash] + more) == Verbatims(literal) + ([Count] + TokensOf(more))
  {
    var rest := [Hash] + more;
    assert rest[1..] == more;
    if literal == "" {
      assert Flush(literal) + [Hash] + more == rest && Verbatims(literal) + TokensOf(rest) == TokensOf(rest);
    } else {
      var m := Flush(literal) + [Hash] + more;
      assert m[0] == Literal(literal) && m[1..] == rest;
    }
  }

  lemma TidyHash(literal: string, more: Message, allowHash: bool)
    requires allowHash
    ensures TidyMessage(Flush(literal) + [Hash] + more, allowHash) <==> TidyMessage(more, allowHash)
  {
    var m, k := Flush(literal) + [Hash] + more, |Flush(literal)| + 1;
    assert forall i | 0 <= i < |more| :: m[k + i] == more[i];
    if TidyMessage(m, allowHash) {
      forall i | 0 < i < |more| ensures more[i - 1].Literal? ==> more[i].Hash? { assert m[k + i - 1] == more[i - 1]; }
    }
    if TidyMessage(more, allowHash) {
      forall i | 0 <= i < |m| ensures if m[i].Hash? then allowHash else m[i].text != "" {
        if i >= k { assert m[i] == more[i - k]; }
      }
      forall i | 0 < i < |m| ensures m[i - 1].Literal? ==> m[i].Hash? {
        if i > k { assert m[i] == more[i - k] && m[i - 1] == more[i - 1 - k]; }
      }
    }
  }

  /** A message that goes on with a `#` has it behind the literal read so far. */
  lemma HashBehind(s: string, n: nat, literal: string, m: Message, allowHash: bool) returns (more: Message)
    requires s != "" && s[0] == '#' && allowHash && Continues(s, n, false, literal, m, allowHash)
    ensures m == Flush(literal) + [Hash] + more
  {
    var body := s[..n];
    assert n > 0 && !DoubledQuote(body);
    var rest := Tokens(body, false);
    assert rest[0] == Count;
    TidyFront(m, literal, rest, allowHash);
    if literal == "" {
      more := m[1..];
      assert m == [m[0]] + m[1..];
    } else {
      more := m[2..];
      TokensAfterLiteral(m, allowHash);
      assert m[1] == m[1..][0];
      assert m == [m[0]] + [m[1]] + m[2..];
    }
  }

  /** The body parser reads `m` from the first `n` characters exactly when these spell it. */
  lemma {:induction false} SubMessageContinues(s: string, at: nat, quoted: bool, literal: string, m: Message, n: nat, allowHash: bool)
    ensures SubMessage(s, at, quoted, literal, allowHash) == Ok(ArmBody(m, at + n + 1)) <==>
            Continues(s, n, quoted, literal, m, allowHash)
    decreases |s|
  {
    hide Continues;
    if s == "" {
      assert !Continues(s, n, quoted, literal, m, allowHash) by { NothingContinues(n, quoted, literal, m, allowHash); }
    } else if DoubledQuote(s) {
      ContinuesPair(s, n, quoted, literal, m, allowHash);
      SubMessageConsumes(s[2..], at + 2, quoted, literal + "'", allowHash);
      if n >= 2 { SubMessageContinues(s[2..], at + 2, quoted, literal + "'", m, n - 2, allowHash); }
    } else if s[0] == '\'' {
      ContinuesQuote(s, n, quoted, literal, m, allowHash);
      SubMessageConsumes(s[1..], at + 1, !quoted, literal, allowHash);
      if n >= 1 { SubMessageContinues(s[1..], at + 1, !quoted, literal, m, n - 1, allowHash); }
    } else if quoted || s[0] !in "{}#" {
      ContinuesChar(s, n, quoted, literal, m, allowHash);
      SubMessageConsumes(s[1..], at + 1, quoted, literal + [s[0]], allowHash);
      if n >= 1 { SubMessageContinues(s[1..], at + 1, quoted, literal + [s[0]], m, n - 1, allowHash); }
    } else if s[0] == '}' {
      ContinuesEnd(s, n, literal, m, allowHash);
    } else if s[0] == '{' || !allowHash {
      ContinuesBrace(s, n, literal, m, allowHash);
    } else {
      HashContinues(s, at, literal, m, n, allowHash);
    }
  }

  lemma NothingContinues(n: nat, quoted: bool, literal: string, m: Message, allowHash: bool)
    ensures !Continues("", n, quoted, literal, m, allowHash)
  {
  }

  lemma {:induction false} HashContinues(s: string, at: nat, literal: string, m: Message, n: nat, allowHash: bool)
    requires s != "" && s[0] == '#' && allowHash
    ensures SubMessage(s, at, false, literal, allowHash) == Ok(ArmBody(m, at + n + 1)) <==>
            Continues(s, n, false, literal, m, allowHash)
    decreases |s|, 0
  {
    hide Continues;
    var r := SubMessage(s[1..], at + 1, false, "", allowHash);
    SubMessageConsumes(s[1..], at + 1, false, "", allowHash);
    if SubMessage(s, at, false, literal, allowHash) == Ok(ArmBody(m, at + n + 1)) {
      var more := r.value.message;
      SubMessageContinues(s[1..], at + 1, false, "", more, n - 1, allowHash);
      ContinuesHash(s, n, literal, m, more, allowHash);
    }
    if Continues(s, n, false, literal, m, allowHash) {
      var more := HashBehind(s, n, literal, m, allowHash);
      ContinuesHash(s, n, literal, m, more, allowHash);
      SubMessageContinues(s[1..], at + 1, false, "", more, n - 1, allowHash);
    }
  }

  /** A body ends at a closing brace, and the text before it spells its message. */
  lemma SubMessageSpells(s: string, m: Message, n: nat, allowHash: bool)
    ensures SubMessage(s, 0, false, "", allowHash) == Ok(ArmBody(m, n + 1)) <==>
            n < |s| && s[n] == '}' && SpellsMessage(s[..n], m, allowHash)
  {
    SubMessageContinues(s, 0, false, "", m, n, allowHash);
    if n < |s| { assert Verbatims("") + Tokens(s[..n], false) == Tokens(s[..n], false); }
  }

  // ----- arms -----

  predicate Blank(s: string) {
    forall i | 0 <= i < |s| :: AsciiSpace(s[i])
  }

  predicate IsKey(key: string) {
    key != "" && forall i | 0 <= i < |key| :: !Space(key[i]) && key[i] != '{'
  }

  /** Blanks, a new key, blanks and a body in braces, `length` characters in all. */
  ghost predicate SpellsArmAt(s: string, key: string, m: Message, known: set<string>, plural: bool,
                              start: nat, end: nat, brace: nat, length: nat) {
    start < end <= brace < length - 1 < |s| && Blank(s[..start]) && s[start..end] == key && Blank(s[end..brace]) &&
    s[brace] == '{' && s[length - 1] == '}' && SpellsMessage(s[brace + 1..length - 1], m, plural) &&
    IsKey(key) && key !in known && (plural ==> exists c :: CategoryText(c) == key)
  }

  ghost predicate SpellsArm(s: string, key: string, m: Message, known: set<string>, plural: bool, length: nat) {
    exists start, end, brace :: SpellsArmAt(s, key, m, known, plural, start, end, brace, length)
  }

  /** The text spells the arms, whose keys are not in `known`. */
  ghost predicate SpellsArms(s: string, arms: Arms, known: set<string>, plural: bool)
    decreases arms
  {
    if arms == [] then Blank(s)
    else exists length :: 0 < length <= |s| && SpellsArm(s, arms[0].0, arms[0].1, known, plural, length) &&
                          SpellsArms(s[length..], arms[1..], known + {arms[0].0}, plural)
  }

  lemma {:induction false} SpaceRunExact(s: string, n: nat)
    ensures SpaceRun(s) == n <==> n <= |s| && Blank(s[..n]) && (n < |s| ==> !AsciiSpace(s[n]))
  {
    if s != "" && AsciiSpace(s[0]) {
      if n > 0 {
        SpaceRunExact(s[1..], n - 1);
        if n <= |s| {
          assert s[..n] == [s[0]] + s[1..][..n - 1];
          assert Blank(s[..n]) <==> Blank(s[1..][..n - 1]) by { BlankCons(s[0], s[1..][..n - 1]); }
        }
      }
    } else if 0 < n <= |s| {
      assert s[..n][0] == s[0];
    }
  }

  lemma BlankCons(c: char, s: string)
    requires AsciiSpace(c)
    ensures Blank([c] + s) <==> Blank(s)
  {
    if Blank([c] + s) {
      forall i | 0 <= i < |s| ensures AsciiSpace(s[i]) { assert ([c] + s)[i + 1] == s[i]; }
    }
  }

  predicate KeyChar(c: char) {
    !Space(c) && c != '{'
  }

  lemma {:induction false} KeyRunExact(s: string, n: nat)
    ensures KeyRun(s) == n <==> n <= |s| && (forall i | 0 <= i < n :: KeyChar(s[i])) && (n < |s| ==> !KeyChar(s[n]))
  {
    if s != "" && KeyChar(s[0]) {
      if n > 0 {
        KeyRunExact(s[1..], n - 1);
        if n <= |s| { assert forall i | 1 <= i < n :: s[i] == s[1..][i - 1]; }
      }
    }
  }

  lemma KeyAccepted(key: string, at: nat, known: set<string>, plural: bool)
    requires forall i | 0 <= i < |key| :: KeyChar(key[i])
    ensures KeyError(key, at, known, plural).None? <==>
            IsKey(key) && key !in known && (plural ==> exists c :: CategoryText(c) == key)
  {
    if c :| CategoryText(c) == key { CategoryKey(c); }
    if ParseCategory(key).Some? { CategoryInverse(key); }
  }

  /** One turn of the loop reads an arm exactly when the text begins with one. */
  lemma ReadArmSpells(s: string, at: nat, known: set<string>, plural: bool, key: string, m: Message, length: nat)
    ensures ReadArm(s, at, known, plural) == Arm(key, m, length) <==> SpellsArm(s, key, m, known, plural, length)
  {
    hide SubMessage, SpellsMessage, KeyError, SpaceRun, KeyRun;
    if ReadArm(s, at, known, plural) == Arm(key, m, length) { ReadArmSpelled(s, at, known, plural, key, m, length); }
    if start, end, brace :| SpellsArmAt(s, key, m, known, plural, start, end, brace, length) {
      SpelledArmRead(s, at, known, plural, key, m, start, end, brace, length);
    }
  }

  lemma ReadArmSpelled(s: string, at: nat, known: set<string>, plural: bool, key: string, m: Message, length: nat)
    requires ReadArm(s, at, known, plural) == Arm(key, m, length)
    ensures SpellsArm(s, key, m, known, plural, length)
  {
    hide SubMessage, SpellsMessage, KeyError, SpaceRun, KeyRun;
    var start := SpaceRun(s);
    var end := start + KeyRun(s[start..]);
    var brace := end + SpaceRun(s[end..]);
    SpaceRunExact(s, start);
    KeyRunExact(s[start..], end - start);
    SpaceRunExact(s[end..], brace - end);
    assert s[end..][..brace - end] == s[end..brace];
    forall i | 0 <= i < |s[start..end]| ensures KeyChar(s[start..end][i]) { assert s[start..end][i] == s[start..][i]; }
    KeyAccepted(key, at + start, known, plural);
    SubMessageConsumes(s[brace + 1..], 0, false, "", plural);
    var n := length - brace - 2;
    SubMessageSpells(s[brace + 1..], m, n, plural);
    assert s[brace + 1..][..n] == s[brace + 1..length - 1];
    assert SpellsArmAt(s, key, m, known, plural, start, end, brace, length);
  }

  lemma SpacesAreSpaces()
    ensures !AsciiSpace('{') && forall c | AsciiSpace(c) :: Space(c)
  {
  }

  lemma SpelledRuns(s: string, key: string, m: Message, known: set<string>, plural: bool,
                    start: nat, end: nat, brace: nat, length: nat)
    requires SpellsArmAt(s, key, m, known, plural, start, end, brace, length)
    ensures SpaceRun(s) == start && KeyRun(s[start..]) == end - start && SpaceRun(s[end..]) == brace - end
  {
    hide SpellsMessage, SpaceRun, KeyRun, AsciiSpace, Space, CategoryText;
    SpacesAreSpaces();
    assert s[start] == key[0] && forall i | 0 <= i < |key| :: s[start..][i] == key[i];
    SpaceRunExact(s, start);
    assert !KeyChar(s[end]) by { if end < brace { assert s[end..brace][0] == s[end]; } }
    KeyRunExact(s[start..], end - start);
    assert s[end..][..brace - end] == s[end..brace];
    SpaceRunExact(s[end..], brace - end);
  }

  lemma SpelledArmRead(s: string, at: nat, known: set<string>, plural: bool, key: string, m: Message,
                       start: nat, end: nat, brace: nat, length: nat)
    requires SpellsArmAt(s, key, m, known, plural, start, end, brace, length)
    ensures ReadArm(s, at, known, plural) == Arm(key, m, length)
  {
    hide SubMessage, SpellsMessage, KeyError, SpaceRun, KeyRun, Blank, Space;
    SpelledRuns(s, key, m, known, plural, start, end, brace, length);
    KeyAccepted(key, at + start, known, plural);
    var n := length - brace - 2;
    assert s[brace + 1..][..n] == s[brace + 1..length - 1];
    SubMessageSpells(s[brace + 1..], m, n, plural);
  }

  lemma ReadArmEnd(s: string, at: nat, known: set<string>, plural: bool)
    ensures ReadArm(s, at, known, plural) == End <==> Blank(s)
  {
    SpaceRunExact(s, |s|);
    assert s[..|s|] == s;
  }

  /** The arms are read exactly when the text spells them. */
  lemma {:induction false} ParseArmsSpells(s: string, at: nat, known: set<string>, plural: bool, arms: Arms)
    ensures ParseArms(s, at, known, plural) == Ok(arms) <==> SpellsArms(s, arms, known, plural)
    decreases |s|
  {
    hide ReadArm, SpellsArm, Blank;
    ReadArmEnd(s, at, known, plural);
    if ParseArms(s, at, known, plural) == Ok(arms) {
      match ReadArm(s, at, known, plural)
      case End =>
      case Arm(key, m, length) =>
        ReadArmSpells(s, at, known, plural, key, m, length);
        var more := ParseArms(s[length..], at + length, known + {key}, plural).value;
        assert arms[0] == (key, m) && arms[1..] == more;
        ParseArmsSpells(s[length..], at + length, known + {key}, plural, more);
    }
    if SpellsArms(s, arms, known, plural) && arms != [] {
      var (key, m) := arms[0];
      var length :| 0 < length <= |s| && SpellsArm(s, key, m, known, plural, length) &&
                    SpellsArms(s[length..], arms[1..], known + {key}, plural);
      ReadArmSpells(s, at, known, plural, key, m, length);
      ParseArmsSpells(s[length..], at + length, known + {key}, plural, arms[1..]);
      assert [(key, m)] + arms[1..] == arms;
    }
  }

  // ----- placeholders -----

  predicate AllSpace(s: string) {
    forall k | 0 <= k < |s| :: Space(s[k])
  }

  predicate TrimsAt(s: string, x: string, i: nat, j: nat) {
    i <= j <= |s| && x == s[i..j] && AllSpace(s[..i]) && AllSpace(s[j..]) && (x != "" ==> !Space(x[0]) && !Space(x[|x| - 1]))
  }

  /** `x` is `s` without the white space around it. */
  ghost predicate TrimsTo(s: string, x: string) {
    exists i, j :: TrimsAt(s, x, i, j)
  }

  /** The comma is the first that is outside quotes and braces. */
  ghost predicate SplitsAt(s: string, c: nat) {
    FirstComma(Mask(s, false), 0, c)
  }

  ghost predicate NoComma(s: string) {
    forall c: nat :: !SplitsAt(s, c)
  }

  /** A format keyword alone. */
  ghost predicate SpellsKeyword(rest: string, keyword: string) {
    NoComma(rest) && TrimsTo(rest, keyword)
  }

  /** A format keyword, a comma and `tail`. */
  ghost predicate SpellsFormat(rest: string, keyword: string, tail: string) {
    exists c: nat :: c < |rest| && SplitsAt(rest, c) && TrimsTo(rest[..c], keyword) && tail == rest[c + 1..]
  }

  ghost predicate SpellsStyle(rest: string, keyword: string, style: string) {
    exists tail :: SpellsFormat(rest, keyword, tail) && NoComma(tail) && TrimsTo(tail, style)
  }

  ghost predicate SpellsChoices(rest: string, keyword: string, arms: Arms, plural: bool) {
    HasOther(arms) && exists tail :: SpellsFormat(rest, keyword, tail) && SpellsArms(tail, arms, {}, plural)
  }

  /** What stands behind the comma that ends the name. */
  ghost predicate SpellsKind(rest: string, kind: PlaceholderKind) {
    match kind
    case Plural(arms) => SpellsChoices(rest, "plural", FromPlural(arms), true)
    case Select(arms) => SpellsChoices(rest, "select", arms, false)
    case Number(None) => SpellsKeyword(rest, "number")
    case Number(Some(s)) => SpellsStyle(rest, "number", NumberText(s))
    case Date(None) => SpellsKeyword(rest, "date")
    case Date(Some(s)) => SpellsStyle(rest, "date", DateText(s))
  }

  /** The inner text spells the placeholder. */
  ghost predicate Spells(inner: string, p: Placeholder) {
    p.name != "" &&
    exists c: nat :: c < |inner| && SplitsAt(inner, c) && TrimsTo(inner[..c], p.name) && SpellsKind(inner[c + 1..], p.kind)
  }

  lemma {:induction false} TrimStartExact(s: string) returns (i: nat)
    ensures i <= |s| && TrimStart(s) == s[i..] && AllSpace(s[..i]) && (i < |s| ==> !Space(s[i]))
  {
    if s != "" && Space(s[0]) {
      var n := TrimStartExact(s[1..]);
      i := n + 1;
      assert s[1..][n..] == s[i..] && s[..i] == [s[0]] + s[1..][..n];
    } else {
      i := 0;
      assert s[0..] == s;
    }
  }

  lemma {:induction false} TrimEndExact(s: string) returns (j: nat)
    ensures j <= |s| && TrimEnd(s) == s[..j] && AllSpace(s[j..]) && (j > 0 ==> !Space(s[j - 1]))
  {
    if s != "" && Space(s[|s| - 1]) {
      var t := s[..|s| - 1];
      j := TrimEndExact(t);
      assert t[..j] == s[..j] && s[j..] == t[j..] + [s[|s| - 1]];
    } else {
      j := |s|;
      assert s[..|s|] == s;
    }
  }

  lemma TrimTrims(s: string)
    ensures TrimsTo(s, Trim(s))
  {
    hide TrimStart, TrimEnd, Space;
    var i := TrimStartExact(s);
    var t := s[i..];
    var j := TrimEndExact(t);
    assert t[..j] == s[i..i + j] && t[j..] == s[i + j..];
    if j > 0 { assert s[i..i + j][0] == s[i]; }
    assert TrimsAt(s, Trim(s), i, i + j);
  }

  lemma TrimsAtOne(s: string, x: string, i: nat, j: nat, y: string, i': nat, j': nat)
    requires TrimsAt(s, x, i, j) && TrimsAt(s, y, i', j') && x != ""
    ensures i' <= i && j <= j'
  {
    hide Space;
    assert x[0] == s[i] && x[|x| - 1] == s[j - 1];
    forall k | 0 <= k < i' ensures Space(s[k]) { assert s[..i'][k] == s[k]; }
    forall k | j' <= k < |s| ensures Space(s[k]) { assert s[j'..][k - j'] == s[k]; }
  }

  lemma TrimsToOne(s: string, x: string, y: string)
    requires TrimsTo(s, x) && TrimsTo(s, y)
    ensures x == y
  {
    hide TrimsAt;
    var i, j :| TrimsAt(s, x, i, j);
    var i', j' :| TrimsAt(s, y, i', j');
    if x != "" { TrimsAtOne(s, x, i, j, y, i', j'); }
    if y != "" { TrimsAtOne(s, y, i', j', x, i, j); }
    TrimsAtEqual(s, x, i, j, y, i', j');
  }

  lemma TrimsAtEqual(s: string, x: string, i: nat, j: nat, y: string, i': nat, j': nat)
    requires TrimsAt(s, x, i, j) && TrimsAt(s, y, i', j')
    requires (x != "" ==> i' <= i && j <= j') && (y != "" ==> i <= i' && j' <= j)
    ensures x == y
  {
    hide Space;
  }

  /** Trimming gives the one text that is left without the white space around it. */
  lemma TrimExact(s: string, x: string)
    ensures Trim(s) == x <==> TrimsTo(s, x)
  {
    hide Trim, TrimsTo;
    TrimTrims(s);
    if TrimsTo(s, x) { TrimsToOne(s, x, Trim(s)); }
  }

  lemma SplitsExact(s: string, c: nat)
    ensures TopLevelComma(s) == Some(c) <==> SplitsAt(s, c)
  {
    CommaFromExact(s, 0, false, c);
  }

  lemma NoCommaExact(s: string)
    ensures TopLevelComma(s) == None <==> NoComma(s)
  {
    hide TopLevelComma, SplitsAt;
    forall c: nat ensures TopLevelComma(s) == Some(c) <==> SplitsAt(s, c) { SplitsExact(s, c); }
  }

  // ----- the parser and the language -----

  lemma StyleExact<T>(tail: string, at: nat, construct: string, known: string -> Option<T>, text: T -> string, value: Option<T>)
    requires forall t :: known(text(t)) == Some(t)
    requires forall x :: known(x).Some? ==> text(known(x).value) == x
    ensures ParseStyle(Some(tail), at, construct, known) == Ok(value) <==>
            value.Some? && NoComma(tail) && TrimsTo(tail, text(value.value))
  {
    hide NoComma, TrimsTo, Trim, TopLevelComma;
    NoCommaExact(tail);
    if value.Some? { TrimExact(tail, text(value.value)); }
  }

  lemma NumberStyles()
    ensures forall t :: NumberStyleOf(NumberText(t)) == Some(t)
    ensures forall x :: NumberStyleOf(x).Some? ==> NumberText(NumberStyleOf(x).value) == x
  {
  }

  lemma DateStyles()
    ensures forall t :: DateStyleOf(DateText(t)) == Some(t)
    ensures forall x :: DateStyleOf(x).Some? ==> DateText(DateStyleOf(x).value) == x
  {
  }

  lemma ChoicesExact(name: string, plural: bool, width: nat, tail: string, at: nat, tailAt: nat, kind: PlaceholderKind)
    ensures ParseChoices(name, plural, width, Some(tail), at, tailAt) == Ok(Placeholder(name, kind)) <==>
            (if plural then kind.Plural? else kind.Select?) &&
            var arms := if kind.Plural? then FromPlural(kind.plurals) else if kind.Select? then kind.choices else [];
            HasOther(arms) && SpellsArms(tail, arms, {}, plural)
  {
    hide ParseArms, SpellsArms, HasOther, ToPlural, FromPlural;
    var r := ParseArms(tail, tailAt, {}, plural);
    if kind.Plural? {
      ParseArmsSpells(tail, tailAt, {}, plural, FromPlural(kind.plurals));
      FromPluralGood(kind.plurals);
    } else if kind.Select? {
      ParseArmsSpells(tail, tailAt, {}, plural, kind.choices);
    }
    if r.Ok? && plural {
      ParseArmsGood(tail, tailAt, {}, plural);
      ToPluralInverse(r.value);
    }
  }

  lemma {:induction false} ToPluralInverse(arms: Arms)
    requires forall i | 0 <= i < |arms| :: ParseCategory(arms[i].0).Some?
    ensures FromPlural(ToPlural(arms)) == arms
  {
    hide ParseCategory, CategoryText;
    ToPluralPointwise(arms);
  }

  /** What is behind the keyword, if anything. */
  ghost predicate SpellsTail(keyword: string, tail: Option<string>, kind: PlaceholderKind) {
    match kind
    case Plural(arms) =>
      keyword == "plural" && tail.Some? && HasOther(FromPlural(arms)) && SpellsArms(tail.value, FromPlural(arms), {}, true)
    case Select(arms) => keyword == "select" && tail.Some? && HasOther(arms) && SpellsArms(tail.value, arms, {}, false)
    case Number(None) => keyword == "number" && tail.None?
    case Number(Some(s)) => keyword == "number" && tail.Some? && NoComma(tail.value) && TrimsTo(tail.value, NumberText(s))
    case Date(None) => keyword == "date" && tail.None?
    case Date(Some(s)) => keyword == "date" && tail.Some? && NoComma(tail.value) && TrimsTo(tail.value, DateText(s))
  }

  lemma KeywordExact(name: string, keyword: string, width: nat, tail: Option<string>, at: nat, tailAt: nat, kind: PlaceholderKind)
    ensures ParseKeyword(name, keyword, width, tail, at, tailAt) == Ok(Placeholder(name, kind)) <==> SpellsTail(keyword, tail, kind)
  {
    hide ParseChoices, ParseStyle, SpellsArms, NoComma, TrimsTo, HasOther, NumberStyleOf, DateStyleOf, NumberText, DateText;
    if keyword == "plural" || keyword == "select" {
      var plural := keyword == "plural";
      if tail.Some? { ChoicesExact(name, plural, width, tail.value, at, tailAt, kind); }
      else { NoChoices(name, plural, width, at, tailAt); }
    } else if keyword == "number" {
      NumberStyles();
      if tail.Some? {
        StyleExact(tail.value, tailAt, "number", NumberStyleOf, NumberText, if kind.Number? then kind.numberStyle else None);
        StyleSome(tail.value, tailAt, "number", NumberStyleOf);
      } else {
        NoStyle(tailAt, "number", NumberStyleOf);
      }
    } else if keyword == "date" {
      DateStyles();
      if tail.Some? {
        StyleExact(tail.value, tailAt, "date", DateStyleOf, DateText, if kind.Date? then kind.dateStyle else None);
        StyleSome(tail.value, tailAt, "date", DateStyleOf);
      } else {
        NoStyle(tailAt, "date", DateStyleOf);
      }
    }
  }

  lemma NoChoices(name: string, plural: bool, width: nat, at: nat, tailAt: nat)
    ensures ParseChoices(name, plural, width, None, at, tailAt).Err?
  {
  }

  lemma NoStyle<T>(at: nat, construct: string, known: string -> Option<T>)
    ensures ParseStyle(None, at, construct, known) == Ok(None)
  {
  }

  lemma StyleSome<T>(tail: string, at: nat, construct: string, known: string -> Option<T>)
    ensures ParseStyle(Some(tail), at, construct, known) != Ok(None)
  {
  }

  lemma FormatExact(name: string, rest: string, at: nat, kind: PlaceholderKind)
    ensures ParseFormat(name, rest, at) == Ok(Placeholder(name, kind)) <==> SpellsKind(rest, kind)
  {
    hide TopLevelComma, Trim, ParseKeyword, SpellsArms, NoComma, TrimsTo, HasOther, SplitsAt, NumberText, DateText;
    NoCommaExact(rest);
    forall c: nat ensures TopLevelComma(rest) == Some(c) <==> SplitsAt(rest, c) { SplitsExact(rest, c); }
    match TopLevelComma(rest)
    case None =>
      KeywordExact(name, Trim(rest), |rest|, None, at, at + |rest|, kind);
      forall x ensures Trim(rest) == x <==> TrimsTo(rest, x) { TrimExact(rest, x); }
    case Some(c) =>
      KeywordExact(name, Trim(rest[..c]), c, Some(rest[c + 1..]), at, at + c + 1, kind);
      forall x ensures Trim(rest[..c]) == x <==> TrimsTo(rest[..c], x) { TrimExact(rest[..c], x); }
      assert forall keyword, tail :: SpellsFormat(rest, keyword, tail) <==> Trim(rest[..c]) == keyword && tail == rest[c + 1..];
  }

  /** The parser accepts exactly the placeholder language, and reads each text as the one placeholder it spells. */
  lemma ParsesIffSpells(inner: string, p: Placeholder)
    ensures ParsePlaceholder(inner) == Ok(p) <==> Spells(inner, p)
  {
    hide TopLevelComma, Trim, ParseFormat, SpellsKind, TrimsTo, SplitsAt;
    forall c: nat ensures TopLevelComma(inner) == Some(c) <==> SplitsAt(inner, c) { SplitsExact(inner, c); }
    match TopLevelComma(inner)
    case None =>
    case Some(c) =>
      var name := Trim(inner[..c]);
      FormatExact(p.name, inner[c + 1..], c + 1, p.kind);
      TrimExact(inner[..c], p.name);
      FormatNames(name, inner[c + 1..], c + 1);
  }

  lemma FormatNames(name: string, rest: string, at: nat)
    ensures ParseFormat(name, rest, at).Ok? ==> ParseFormat(name, rest, at).value.name == name
  {
    hide TopLevelComma, Trim, ParseArms, ParseStyle;
  }
}
