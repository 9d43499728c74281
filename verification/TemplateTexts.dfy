/** Which token lists are templates, and the plain way to spell them. */
module TemplateTexts {
  import opened CStrings
  import opened Templates

  // ----- spelling

  function SpellName(name: Option<string>): string {
    match name case None => ANONYMOUS case Some(n) => ":\"" + n + "\""
  }

  function SpellOne(tok: Token): (s: string)
    ensures s != ""
  {
    match tok
    case Literal(c) => if c == '\\' then "\\\\" else [c]
    case Blanks => "\\ "
    case NumberParam(name) => "\\n" + SpellName(name)
    case TextParam(name, _) => "\\s" + SpellName(name)
    case DateParam(name) => "\\d" + SpellName(name)
  }

  function Spell(ts: seq<Token>): string {
    if ts == [] then "" else SpellOne(ts[0]) + Spell(ts[1..])
  }

  // ----- what can be spelled

  /** Capital letters, digits, and the underscore. */
  predicate NameCode(c: char) {
    65 <= c as int <= 90 || 48 <= c as int <= 57 || c as int == 95
  }

  predicate GoodName(name: Option<string>) {
    name.Some? ==> name.value != "_" && forall k :: 0 <= k < |name.value| ==> NameCode(name.value[k])
  }

  /** The delimiter that a named string parameter takes from the tokens behind it. */
  function DelimiterOf(rest: seq<Token>): Option<char> {
    if rest == [] then Some('\0')
    else match rest[0]
      case Literal(c) => Some(c)
      case Blanks => Some(' ')
      case _ => None
  }

  predicate FitsBefore(tok: Token, rest: seq<Token>) {
    match tok
    case Literal(_) => true
    case Blanks => rest == [] || rest[0] != Literal(' ')
    case NumberParam(name) => GoodName(name)
    case DateParam(name) => GoodName(name)
    case TextParam(name, delimiter) =>
      GoodName(name) && if name.None? then delimiter == ':' else DelimiterOf(rest) == Some(delimiter)
  }

  predicate Spellable(ts: seq<Token>) {
    ts == [] || (FitsBefore(ts[0], ts[1..]) && Spellable(ts[1..]))
  }

  // ----- names that no parameter can have

  /** A parameter whose quoted name holds any other character, such as a lower-case letter, is malformed, and
      with it every template that comes to it. */
  lemma OtherNamesRefused(letter: char, n: string, c: char, rest: string)
    requires IsParamLetter(letter)
    requires (forall k :: 0 <= k < |n| ==> NameCode(n[k])) && !NameCode(c) && c != '"'
    ensures NextToken("\\" + [letter] + ":\"" + n + [c] + rest) == None
  {
    hide ANONYMOUS, Span;
    var t := "\\" + [letter] + ":\"" + n + [c] + rest;
    var tail := n + [c] + rest;
    assert t[2..] == ":\"" + tail && t[2..][2..] == tail;
    SpanIs(tail, IsNameChar, |n|);
    NotAnonymous(n, c, rest);
    LexNamed(t[2..], tail);
  }

  lemma NotAnonymous(n: string, c: char, rest: string)
    requires (forall k :: 0 <= k < |n| ==> NameCode(n[k])) && !NameCode(c) && c != '"'
    ensures !(ANONYMOUS <= ":\"" + (n + [c] + rest))
  {
    var body := ":\"" + (n + [c] + rest);
    assert body[2 + |n|] == c && forall k :: 0 <= k < |n| ==> body[2 + k] == n[k];
    assert n != "" ==> body[2] != ANONYMOUS[2] || body[3] != ANONYMOUS[3];
    assert n == "" ==> body[2] != ANONYMOUS[2];
  }

  // ----- spelling and tokenising are inverse

  lemma QuotedIsNamed(n: string, rest: string)
    requires n != "_" && forall k :: 0 <= k < |n| ==> NameCode(n[k])
    ensures !(ANONYMOUS <= ":\"" + n + "\"" + rest)
  {
    var body := ":\"" + n + "\"" + rest;
    assert body[2 + |n|] == '"' && forall k :: 0 <= k < |n| ==> body[2 + k] == n[k];
    assert |n| == 1 ==> n == [n[0]];
    assert n != "" ==> body[2] != ANONYMOUS[2] || body[3] != ANONYMOUS[3];
    assert n == "" ==> body[2] != ANONYMOUS[2];
  }

  lemma NameEnds(n: string, rest: string)
    requires forall k :: 0 <= k < |n| ==> NameCode(n[k])
    ensures var tail := n + "\"" + rest;
            Span(tail, IsNameChar) == |n| && tail[..|n|] == n && At(tail, |n|) == '"'
  {
    SpanIs(n + "\"" + rest, IsNameChar, |n|);
  }

  /** `LexName` on a text that does not start like a nameless parameter, by its parts. */
  lemma LexNamed(body: string, tail: string)
    requires |body| >= 2 && !(ANONYMOUS <= body) && body[0] == ':' && body[1] == '"' && body[2..] == tail
    ensures var n := Span(tail, IsNameChar);
            LexName(body) == if At(tail, n) != '"' then None else Some((Some(tail[..n]), n + 3))
  {
    hide ANONYMOUS, Span;
  }

  lemma NameReads(name: Option<string>, rest: string)
    requires GoodName(name)
    ensures LexName(SpellName(name) + rest) == Some((name, |SpellName(name)|))
  {
    hide LexName;
    match name
    case None => NamelessReads(rest);
    case Some(n) =>
      hide Span;
      var tail := n + "\"" + rest;
      QuotedIsNamed(n, rest);
      NameEnds(n, rest);
      assert (SpellName(name) + rest)[2..] == tail;
      LexNamed(SpellName(name) + rest, tail);
  }

  lemma NamelessReads(rest: string)
    ensures LexName(ANONYMOUS + rest) == Some((None, 4))
  {
  }

  lemma SpellStarts(ts: seq<Token>)
    ensures var s := Spell(ts);
            match DelimiterOf(ts)
            case None => At(s, 0) == '\\' && IsParamLetter(At(s, 1))
            case Some(c) =>
              if At(s, 0) == '\\' then At(s, 1) == c && !IsParamLetter(c)
              else At(s, 0) == c && (ts != [] ==> ts[0] == Literal(c))
  {
  }

  lemma ParamReads(head: string, name: Option<string>, rest: string)
    requires |head| == 2 && GoodName(name)
    ensures var t := head + SpellName(name) + rest;
            |t| >= 2 && t[0] == head[0] && t[1] == head[1]
            && LexName(t[2..]) == Some((name, |SpellName(name)|)) && t[2 + |SpellName(name)|..] == rest
  {
    hide LexName, SpellName;
    var t := head + SpellName(name) + rest;
    NameReads(name, rest);
    assert t[2..] == SpellName(name) + rest;
  }

  lemma TextReads(name: Option<string>, delimiter: char, more: seq<Token>)
    requires FitsBefore(TextParam(name, delimiter), more)
    ensures LexText(name, Spell(more), 2 + |SpellName(name)|)
         == Some(Lexed(TextParam(name, delimiter), 2 + |SpellName(name)|))
  {
    hide SpellName, GoodName, Spell;
    SpellStarts(more);
  }

  lemma BlanksRead(more: seq<Token>)
    requires FitsBefore(Blanks, more)
    ensures NextToken("\\ " + Spell(more)) == Some(Lexed(Blanks, 2))
  {
    hide Spell, LexParam;
    SpellStarts(more);
    assert ("\\ " + Spell(more))[2..] == Spell(more);
    SpanIs(Spell(more), IsPlainBlank, 0);
  }

  lemma TokenReads(tok: Token, more: seq<Token>)
    requires FitsBefore(tok, more)
    ensures NextToken(SpellOne(tok) + Spell(more)) == Some(Lexed(tok, |SpellOne(tok)|))
  {
    hide LexName, LexText, SpellName, GoodName, Spell, Span;
    var rest := Spell(more);
    match tok
    case Literal(c) =>
    case Blanks => BlanksRead(more);
    case NumberParam(name) => ParamReads("\\n", name, rest);
    case DateParam(name) => ParamReads("\\d", name, rest);
    case TextParam(name, delimiter) =>
      ParamReads("\\s", name, rest);
      TextReads(name, delimiter, more);
  }

  // ----- the texts of the tokens

  predicate PlainName(n: string) {
    n != "_" && forall k :: 0 <= k < |n| ==> NameCode(n[k])
  }

  lemma ParamText(letter: char, n: string, rest: string)
    requires PlainName(n)
    ensures var t := "\\" + [letter] + ":\"" + n + "\"" + rest;
            |t| == |n| + 5 + |rest| && t[0] == '\\' && t[1] == letter && LexName(t[2..]) == Some((Some(n), |n| + 3))
            && t[|n| + 5..] == rest
  {
    hide LexName;
    var t := "\\" + [letter] + ":\"" + n + "\"" + rest;
    NameReads(Some(n), rest);
    assert t[2..] == SpellName(Some(n)) + rest;
  }

  /** A number and a date by their letters, with a quoted name. */
  lemma NamedTexts(n: string, rest: string)
    requires PlainName(n)
    ensures NextToken("\\n:\"" + n + "\"" + rest) == Some(Lexed(NumberParam(Some(n)), |n| + 5))
    ensures NextToken("\\d:\"" + n + "\"" + rest) == Some(Lexed(DateParam(Some(n)), |n| + 5))
  {
    hide LexName;
    ParamText('n', n, rest);
    ParamText('d', n, rest);
    assert "\\" + ['n'] + ":\"" == "\\n:\"" && "\\" + ['d'] + ":\"" == "\\d:\"";
  }

  /** A string parameter stops at what the template has behind it: a character, an escaped character, or the end;
      another parameter there is an error. */
  lemma StringTexts(n: string, c: char, rest: string)
    requires PlainName(n)
    ensures NextToken("\\s:\"" + n + "\"") == Some(Lexed(TextParam(Some(n), '\0'), |n| + 5))
    ensures c != '\\' ==> NextToken("\\s:\"" + n + "\"" + ([c] + rest)) == Some(Lexed(TextParam(Some(n), c), |n| + 5))
    ensures NextToken("\\s:\"" + n + "\"" + (['\\', c] + rest)) ==
              if c == 'n' || c == 's' || c == 'd' then None else Some(Lexed(TextParam(Some(n), c), |n| + 5))
  {
    hide LexName;
    ParamText('s', n, "");
    ParamText('s', n, [c] + rest);
    ParamText('s', n, ['\\', c] + rest);
    assert "\\" + ['s'] + ":\"" == "\\s:\"";
    NoTail("\\s:\"" + n + "\"");
  }

  /** Without a name; a string then stops at a colon, whatever comes behind it. */
  lemma NamelessTexts(rest: string)
    ensures NextToken("\\n:\"_\"" + rest) == Some(Lexed(NumberParam(None), 6))
    ensures NextToken("\\d:\"_\"" + rest) == Some(Lexed(DateParam(None), 6))
    ensures NextToken("\\s:\"_\"" + rest) == Some(Lexed(TextParam(None, ':'), 6))
  {
    hide LexName;
    NamelessReads(rest);
    assert ("\\n:\"_\"" + rest)[2..] == ":\"_\"" + rest && ("\\d:\"_\"" + rest)[2..] == ":\"_\"" + rest;
    assert ("\\s:\"_\"" + rest)[2..] == ":\"_\"" + rest;
  }

  /** Plain characters, escaped ones, escaped blanks, and a backslash at the end. */
  lemma LiteralTexts(c: char, blanks: string, rest: string)
    requires (forall k :: 0 <= k < |blanks| ==> blanks[k] as int == 32) && (rest != "" ==> rest[0] as int != 32)
    ensures c != '\\' ==> NextToken([c] + rest) == Some(Lexed(Literal(c), 1))
    ensures c != 'n' && c != 's' && c != 'd' && c != ' ' ==> NextToken(['\\', c] + rest) == Some(Lexed(Literal(c), 2))
    ensures NextToken("\\ " + (blanks + rest)) == Some(Lexed(Blanks, 2 + |blanks|))
    ensures NextToken("\\") == None
  {
    hide LexParam;
    assert ("\\ " + (blanks + rest))[2..] == blanks + rest;
    SpanIs(blanks + rest, IsPlainBlank, |blanks|);
  }

  // ----- whole templates

  lemma {:induction false} SpellReads(ts: seq<Token>)
    requires Spellable(ts)
    ensures Tokenise(Spell(ts)) == Some(ts)
    decreases |ts|
  {
    if ts != [] {
      hide NextToken, SpellOne, FitsBefore, Tokenise;
      TokenReads(ts[0], ts[1..]);
      SpellReads(ts[1..]);
      TokeniseStep(SpellOne(ts[0]), Spell(ts[1..]), ts[0]);
      assert ts == [ts[0]] + ts[1..];
    }
  }

  lemma TokeniseStep(first: string, rest: string, tok: Token)
    requires first != "" && NextToken(first + rest) == Some(Lexed(tok, |first|))
    ensures Tokenise(first + rest) == match Tokenise(rest) case None => None case Some(ts) => Some([tok] + ts)
  {
    hide NextToken;
    assert (first + rest)[|first|..] == rest;
  }

  lemma NameGood(body: string)
    requires LexName(body).Some?
    ensures GoodName(LexName(body).value.0)
  {
    if !(ANONYMOUS <= body) {
      var n := Span(body[2..], IsNameChar);
      assert |body| >= 4 && n == 1 ==> body[..4] == [body[0], body[1], body[2], body[3]] && body[2..][..n] == [body[2]];
    }
  }

  /** What the tokens read from a text say about its start. */
  lemma ReadStarts(rest: string, ts: seq<Token>)
    requires Tokenise(rest) == Some(ts)
    ensures At(rest, 0) != '\\' ==> DelimiterOf(ts) == Some(At(rest, 0))
    ensures At(rest, 0) == '\\' && !IsParamLetter(At(rest, 1)) ==> DelimiterOf(ts) == Some(At(rest, 1))
    ensures ts != [] && ts[0] == Literal(' ') ==> At(rest, 0) == ' '
  {
    hide LexName;
  }

  lemma ReadTextFits(name: Option<string>, rest: string, length: nat, ts: seq<Token>)
    requires GoodName(name) && Tokenise(rest) == Some(ts) && LexText(name, rest, length).Some?
    ensures FitsBefore(LexText(name, rest, length).value.token, ts)
  {
    hide Tokenise, GoodName;
    ReadStarts(rest, ts);
  }

  /** A token that was read fits in front of the tokens read behind it. */
  lemma ReadFits(t: string, l: Lexed, ts: seq<Token>)
    requires t != "" && NextToken(t) == Some(l) && Tokenise(t[l.length..]) == Some(ts)
    ensures FitsBefore(l.token, ts)
  {
    hide LexName, LexText, Tokenise, GoodName;
    ReadStarts(t[l.length..], ts);
    if |t| >= 2 && t[0] == '\\' {
      if IsParamLetter(t[1]) {
        NameGood(t[2..]);
        if t[1] == 's' {
          var (name, n) := LexName(t[2..]).value;
          assert LexText(name, t[2 + n..], 2 + n).value == l;
          LexTextLength(name, t[2 + n..], 2 + n);
          ReadTextFits(name, t[2 + n..], 2 + n, ts);
        }
      }
    }
  }

  lemma LexTextLength(name: Option<string>, rest: string, length: nat)
    requires LexText(name, rest, length).Some?
    ensures LexText(name, rest, length).value.length == length
  {
  }

  lemma {:induction false} ReadIsSpellable(t: string)
    requires Tokenise(t).Some?
    ensures Spellable(Tokenise(t).value)
    decreases |t|
  {
    if t != "" {
      hide NextToken, FitsBefore;
      var l := NextToken(t).value;
      ReadIsSpellable(t[l.length..]);
      ReadFits(t, l, Tokenise(t[l.length..]).value);
    }
  }

  /** The token lists of templates are exactly the spellable ones. */
  lemma TemplatesAreSpellable(ts: seq<Token>)
    ensures Spellable(ts) <==> exists t :: Tokenise(t) == Some(ts)
  {
    hide Tokenise, Spellable;
    if Spellable(ts) { SpellReads(ts); }
    if t :| Tokenise(t) == Some(ts) { ReadIsSpellable(t); }
  }

  /** Spelling the tokens of a template plainly does not change what it matches. */
  lemma PlainSpellingMatches(t: string, m: string)
    requires Tokenise(t).Some?
    ensures MatchText(Spell(Tokenise(t).value), m) == MatchText(t, m)
  {
    hide Tokenise, MatchText, Match, Spellable;
    ReadIsSpellable(t);
    SpellReads(Tokenise(t).value);
    MatchTextIsMatch(t, m);
    MatchTextIsMatch(Spell(Tokenise(t).value), m);
  }
}
