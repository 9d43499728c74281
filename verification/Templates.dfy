/** The rule template language: its tokens, and what each token takes from a log line. */
module Templates {
  import opened CStrings
  import opened Dates

  datatype Kind = Number | Text | Date

  datatype Arg = Arg(kind: Kind, name: string, value: string)

  /** A parameter called "_" has no name: it consumes text and reports nothing. */
  datatype Token =
    | Literal(c: char)
    | Blanks
    | NumberParam(name: Option<string>)
    | TextParam(name: Option<string>, delimiter: char)
    | DateParam(name: Option<string>)

  datatype Lexed = Lexed(token: Token, length: nat)

  datatype Taken = Taken(length: nat, args: seq<Arg>)

  // ----- from template text to tokens

  const ANONYMOUS := ":\"_\""

  predicate IsParamLetter(c: char) { c == 'n' || c == 's' || c == 'd' }

  predicate IsPlainBlank(c: char) { c == ' ' }

  /** The quoted name behind a parameter letter, with the number of characters it takes. */
  function LexName(body: string): (r: Option<(Option<string>, nat)>)
    ensures r.Some? ==> 3 <= r.value.1 <= |body| && body[0] == ':'
    ensures r.Some? && r.value.0.Some? ==> forall c <- r.value.0.value :: IsNameChar(c)
  {
    if ANONYMOUS <= body then Some((None, 4))
    else if At(body, 0) != ':' || At(body, 1) != '"' then None
    else
      var n := Span(body[2..], IsNameChar);
      if At(body, 2 + n) != '"' then None
      else
        assert forall c <- body[2..][..n] :: IsNameChar(c);
        Some((Some(body[2..][..n]), n + 3))
  }

  /** A named text parameter stops at the next template character, with an escape looked through;
      another parameter may not follow directly. */
  function LexText(name: Option<string>, rest: string, length: nat): Option<Lexed> {
    if name.None? then Some(Lexed(TextParam(None, ':'), length))
    else if At(rest, 0) != '\\' then Some(Lexed(TextParam(name, At(rest, 0)), length))
    else if IsParamLetter(At(rest, 1)) then None
    else Some(Lexed(TextParam(name, At(rest, 1)), length))
  }

  function LexParam(t: string): (r: Option<Lexed>)
    requires |t| >= 2 && IsParamLetter(t[1])
    ensures r.Some? ==> 2 <= r.value.length <= |t|
  {
    match LexName(t[2..])
    case None => None
    case Some((name, n)) =>
      if t[1] == 'n' then Some(Lexed(NumberParam(name), 2 + n))
      else if t[1] == 'd' then Some(Lexed(DateParam(name), 2 + n))
      else LexText(name, t[2 + n..], 2 + n)
  }

  /** The token at the front of a template; `None` when the template is malformed there. */
  function NextToken(t: string): (r: Option<Lexed>)
    requires t != ""
    ensures r.Some? ==> 1 <= r.value.length <= |t|
  {
    if t[0] != '\\' then Some(Lexed(Literal(t[0]), 1))
    else if |t| == 1 then None
    else if IsParamLetter(t[1]) then LexParam(t)
    else if t[1] == ' ' then Some(Lexed(Blanks, 2 + Span(t[2..], IsPlainBlank)))
    else Some(Lexed(Literal(t[1]), 2))
  }

  function Tokenise(t: string): Option<seq<Token>>
    decreases |t|
  {
    if t == "" then Some([])
    else match NextToken(t)
      case None => None
      case Some(l) =>
        match Tokenise(t[l.length..])
        case None => None
        case Some(ts) => Some([l.token] + ts)
  }

  // ----- what a token takes from a line

  predicate InText(c: char, delimiter: char) {
    c != delimiter && c != '"' && ' ' <= c <= '~'
  }

  function TextLength(m: string, delimiter: char): (n: nat)
    ensures n <= |m|
  {
    Span(m, c => InText(c, delimiter))
  }

  function Captured(kind: Kind, name: Option<string>, value: string): seq<Arg> {
    if name.None? then [] else [Arg(kind, name.value, value)]
  }

  function Take(tok: Token, m: string): (r: Option<Taken>)
    ensures r.Some? ==> r.value.length <= |m|
  {
    match tok
    case Literal(c) => if m != "" && m[0] == c then Some(Taken(1, [])) else None
    case Blanks => Some(Taken(Span(m, IsBlank), []))
    case NumberParam(name) =>
      var n := Span(m, IsDigit);
      if n == 0 then None else Some(Taken(n, Captured(Number, name, m[..n])))
    case TextParam(name, delimiter) =>
      var n := TextLength(m, delimiter);
      if n == 0 then None else Some(Taken(n, Captured(Text, name, m[..n])))
    case DateParam(name) =>
      match ReadDate(m)
      case None => None
      case Some(d) => Some(Taken(15, Captured(Date, name, PrintDate(d))))
  }

  function Prepend(args: seq<Arg>, r: Option<seq<Arg>>): Option<seq<Arg>> {
    match r case None => None case Some(more) => Some(args + more)
  }

  /** A line ends at its newline or with the text; behind the newline there may be text read ahead. */
  predicate Ended(m: string) {
    m == "" || m[0] == '\n'
  }

  /** Tokens in order, each as long as it can be, until line and template end together.  No token, not
      even an optional run of blanks, starts at the end of the line. */
  function Match(ts: seq<Token>, m: string): Option<seq<Arg>>
    decreases ts
  {
    if ts == [] then if Ended(m) then Some([]) else None
    else if Ended(m) then None
    else match Take(ts[0], m)
      case None => None
      case Some(taken) => Prepend(taken.args, Match(ts[1..], m[taken.length..]))
  }

  /** The same, reading the template text token by token. */
  function MatchText(t: string, m: string): Option<seq<Arg>>
    decreases |t|
  {
    if t == "" then if Ended(m) then Some([]) else None
    else if Ended(m) then None
    else match NextToken(t)
      case None => None
      case Some(l) =>
        match Take(l.token, m)
        case None => None
        case Some(taken) => Prepend(taken.args, MatchText(t[l.length..], m[taken.length..]))
  }

  /** Interleaving tokenising and matching, as the agent does, accepts a line exactly when the whole
      template is well formed and its token list matches. */
  lemma {:induction false} MatchTextIsMatch(t: string, m: string)
    ensures MatchText(t, m) == match Tokenise(t) case None => None case Some(ts) => Match(ts, m)
    decreases |t|
  {
    if t != "" {
      match NextToken(t)
      case None =>
      case Some(l) =>
        match Take(l.token, m)
        case None =>
        case Some(taken) =>
          MatchTextIsMatch(t[l.length..], m[taken.length..]);
          match Tokenise(t[l.length..])
          case None =>
          case Some(ts) => assert ([l.token] + ts)[1..] == ts;
    }
  }

  // ----- the declarative reading: a line is cut into one piece per token

  function Concat(pieces: seq<string>): string {
    if pieces == [] then "" else pieces[0] + Concat(pieces[1..])
  }

  /** Characters by their codes: the blank and the tab, the digits, and what can be printed, without the quote
      and the delimiter. */
  predicate BlankCode(c: char) {
    c as int == 32 || c as int == 9
  }

  predicate DigitCode(c: char) {
    48 <= c as int <= 57
  }

  predicate TextCode(c: char, delimiter: char) {
    32 <= c as int <= 126 && c as int != 34 && c != delimiter
  }

  predicate BlanksOnly(s: string) {
    forall k :: 0 <= k < |s| ==> BlankCode(s[k])
  }

  predicate DigitsOnly(s: string) {
    forall k :: 0 <= k < |s| ==> DigitCode(s[k])
  }

  predicate TextOnly(s: string, delimiter: char) {
    forall k :: 0 <= k < |s| ==> TextCode(s[k], delimiter)
  }

  /** `piece` is a maximal text of the token's kind in front of `rest`. */
  predicate Fits(tok: Token, piece: string, rest: string) {
    piece + rest != "" && (piece + rest)[0] as int != 10 &&
    match tok
    case Literal(c) => piece == [c]
    case Blanks => BlanksOnly(piece) && (rest == "" || !BlankCode(rest[0]))
    case NumberParam(_) => piece != "" && DigitsOnly(piece) && (rest == "" || !DigitCode(rest[0]))
    case TextParam(_, delimiter) =>
      piece != "" && TextOnly(piece, delimiter) && (rest == "" || !TextCode(rest[0], delimiter))
    case DateParam(_) => |piece| == 15 && ReadDate(piece).Some?
  }

  predicate FitAll(ts: seq<Token>, pieces: seq<string>, tail: string)
    requires |ts| == |pieces|
  {
    ts != [] ==> Fits(ts[0], pieces[0], Concat(pieces[1..]) + tail) && FitAll(ts[1..], pieces[1..], tail)
  }

  function Reported(tok: Token, piece: string): seq<Arg> {
    match tok
    case Literal(_) => []
    case Blanks => []
    case NumberParam(name) => Captured(Number, name, piece)
    case TextParam(name, _) => Captured(Text, name, piece)
    case DateParam(name) =>
      match ReadDate(piece) case None => [] case Some(d) => Captured(Date, name, PrintDate(d))
  }

  function ReportedAll(ts: seq<Token>, pieces: seq<string>): seq<Arg>
    requires |ts| == |pieces|
  {
    if ts == [] then [] else Reported(ts[0], pieces[0]) + ReportedAll(ts[1..], pieces[1..])
  }

  lemma SpanLocal(u: string, x: string, p: char -> bool, k: nat)
    requires k < |u| && !p(u[k])
    ensures Span(u + x, p) == Span(u, p) <= k
  {
    var n := Span(u, p);
    SpanIs(u + x, p, n);
  }

  lemma DigitsLocal(d: string, x: string, k: nat)
    requires k < |d| && d[k] == ':'
    ensures DigitsValue(d + x) == DigitsValue(d)
  {
    assert !IsDigit(d[k]);
    SpanLocal(d, x, IsDigit, k);
    var n := Span(d, IsDigit);
    assert (d + x)[..n] == d[..n];
  }

  lemma SignedLocal(t: string, x: string, k: nat)
    requires k < |t| && t[k] == ':'
    ensures SignedValue(t + x) == SignedValue(t)
  {
    hide DigitsValue;
    if t[0] == '-' || t[0] == '+' {
      assert (t + x)[1..] == t[1..] + x;
      DigitsLocal(t[1..], x, k - 1);
    } else {
      DigitsLocal(t, x, k);
    }
  }

  lemma AtoiLocal(u: string, x: string, k: nat)
    requires k < |u| && u[k] == ':'
    ensures Atoi(u + x) == Atoi(u)
  {
    hide SignedValue;
    var p := Span(u, IsSpace);
    assert !IsSpace(u[k]);
    SpanLocal(u, x, IsSpace, k);
    assert (u + x)[p..] == u[p..] + x;
    SignedLocal(u[p..], x, k - p);
  }

  /** `atoi` looks behind the two day characters, but never out of the timestamp. */
  lemma DateLocal(s: string)
    requires |s| >= 15
    ensures ReadDate(s) == ReadDate(s[..15])
  {
    hide Atoi, MonthOf;
    var p := s[..15];
    assert MonthOf(p) == MonthOf(s) by { assert p[..3] == s[..3]; MonthLocal(s, p); }
    assert forall k: nat :: k < 8 ==> At(p[7..], k) == At(s[7..], k);
    if s[9] == ':' {
      assert s[4..] == p[4..] + s[15..];
      AtoiLocal(p[4..], s[15..], 5);
    } else {
      assert At(s[7..], 2) == s[9] && At(p[7..], 2) == s[9];
    }
  }

  lemma MonthLocal(s: string, p: string)
    requires |s| >= 3 && |p| >= 3 && s[..3] == p[..3]
    ensures MonthOf(s) == MonthOf(p)
  {
    forall name: string | |name| == 3 ensures name <= s <==> name <= p {
      assert name <= s <==> s[..3] == name;
      assert name <= p <==> p[..3] == name;
    }
  }

  lemma TakeFits(tok: Token, m: string)
    requires !Ended(m) && Take(tok, m).Some?
    ensures var n := Take(tok, m).value.length;
            Fits(tok, m[..n], m[n..]) && Take(tok, m).value.args == Reported(tok, m[..n])
  {
    hide ReadDate, PrintDate;
    match tok
    case DateParam(name) => TakeDateFits(name, m);
    case TextParam(name, delimiter) => TakeTextFits(name, delimiter, m);
    case _ =>
      var n := Take(tok, m).value.length;
      assert m[..n] + m[n..] == m;
  }

  lemma TakeTextFits(name: Option<string>, delimiter: char, m: string)
    requires !Ended(m) && Take(TextParam(name, delimiter), m).Some?
    ensures var n := TextLength(m, delimiter);
            Fits(TextParam(name, delimiter), m[..n], m[n..])
            && Take(TextParam(name, delimiter), m).value.args == Reported(TextParam(name, delimiter), m[..n])
  {
    var n := TextLength(m, delimiter);
    assert m[..n] + m[n..] == m;
    assert forall k :: 0 <= k < n ==> InText(m[k], delimiter);
  }

  lemma TakeDateFits(name: Option<string>, m: string)
    requires !Ended(m) && ReadDate(m).Some?
    ensures Fits(DateParam(name), m[..15], m[15..])
    ensures Take(DateParam(name), m).value.args == Reported(DateParam(name), m[..15])
  {
    hide ReadDate, PrintDate;
    DateLocal(m);
    assert m[..15] + m[15..] == m;
  }

  lemma FitsTake(tok: Token, piece: string, rest: string)
    requires Fits(tok, piece, rest)
    ensures !Ended(piece + rest)
    ensures Take(tok, piece + rest) == Some(Taken(|piece|, Reported(tok, piece)))
  {
    hide ReadDate, PrintDate;
    var m, n := piece + rest, |piece|;
    assert m[..n] == piece && m[n..] == rest;
    assert forall k :: 0 <= k < n ==> m[k] == piece[k];
    assert n < |m| ==> m[n] == rest[0];
    match tok
    case Literal(_) =>
    case Blanks => SpanIs(m, IsBlank, n);
    case NumberParam(_) => SpanIs(m, IsDigit, n);
    case TextParam(_, delimiter) => SpanIs(m, c => InText(c, delimiter), n);
    case DateParam(_) => DateLocal(m);
  }

  /** A text of printable characters, up to a delimiter, a quote, another character, or the end of the line, is
      taken as a whole, blanks inside included. */
  lemma TextIsReported(name: string, delimiter: char, v: string, rest: string)
    requires v != "" && forall k :: 0 <= k < |v| ==> 32 <= v[k] as int <= 126 && v[k] as int != 34 && v[k] != delimiter
    requires rest == "" || rest[0] == delimiter || rest[0] as int == 34 || rest[0] as int < 32 || rest[0] as int > 126
    ensures TextLength(v + rest, delimiter) == |v|
    ensures Take(TextParam(Some(name), delimiter), v + rest) == Some(Taken(|v|, [Arg(Text, name, v)]))
  {
    SpanIs(v + rest, c => InText(c, delimiter), |v|);
    assert (v + rest)[..|v|] == v;
  }

  /** The same for digits, and for blanks and tabs. */
  lemma NumberIsReported(name: string, v: string, rest: string)
    requires v != "" && forall k :: 0 <= k < |v| ==> 48 <= v[k] as int <= 57
    requires rest != "" ==> !(48 <= rest[0] as int <= 57)
    ensures Take(NumberParam(Some(name)), v + rest) == Some(Taken(|v|, [Arg(Number, name, v)]))
  {
    SpanIs(v + rest, IsDigit, |v|);
    assert (v + rest)[..|v|] == v;
  }

  lemma BlanksAreTaken(v: string, rest: string)
    requires forall k :: 0 <= k < |v| ==> v[k] as int == 32 || v[k] as int == 9
    requires rest != "" ==> rest[0] as int != 32 && rest[0] as int != 9
    ensures Take(Blanks, v + rest) == Some(Taken(|v|, []))
  {
    SpanIs(v + rest, IsBlank, |v|);
  }

  /** A parameter without a name takes what the same one takes with a name, and reports nothing. */
  lemma NamelessTakes(tok: Token, name: string, m: string)
    requires !tok.Literal? && !tok.Blanks? && tok.name == None
    ensures var named := Take(tok.(name := Some(name)), m);
            Take(tok, m) == if named.None? then None else Some(Taken(named.value.length, []))
  {
    hide ReadDate, PrintDate;
  }

  /** An accepted line is cut into pieces, one for each token, and the arguments are the named pieces. */
  lemma {:induction false} MatchSound(ts: seq<Token>, m: string) returns (pieces: seq<string>, tail: string)
    requires Match(ts, m).Some?
    ensures |pieces| == |ts| && Concat(pieces) + tail == m && Ended(tail) && FitAll(ts, pieces, tail)
    ensures Match(ts, m) == Some(ReportedAll(ts, pieces))
    decreases ts
  {
    hide Take, Fits, Reported;
    if ts == [] {
      pieces, tail := [], m;
    } else {
      var n := Take(ts[0], m).value.length;
      TakeFits(ts[0], m);
      var more;
      more, tail := MatchSound(ts[1..], m[n..]);
      pieces := [m[..n]] + more;
      assert pieces[1..] == more && pieces[0] == m[..n] && m[..n] + m[n..] == m;
      Assoc(m[..n], Concat(more), tail);
    }
  }

  /** Any cutting into fitting pieces is the one the matcher finds. */
  lemma {:induction false} MatchComplete(ts: seq<Token>, pieces: seq<string>, tail: string)
    requires |ts| == |pieces| && Ended(tail) && FitAll(ts, pieces, tail)
    ensures Match(ts, Concat(pieces) + tail) == Some(ReportedAll(ts, pieces))
    decreases ts
  {
    hide Take, Fits, Reported;
    if ts == [] {
      assert "" + tail == tail;
    } else {
      var rest := Concat(pieces[1..]) + tail;
      FitsTake(ts[0], pieces[0], rest);
      MatchComplete(ts[1..], pieces[1..], tail);
      assert (pieces[0] + rest)[|pieces[0]|..] == rest;
      Assoc(pieces[0], Concat(pieces[1..]), tail);
    }
  }

  ghost predicate Cuts(ts: seq<Token>, m: string, args: seq<Arg>, pieces: seq<string>, tail: string) {
    |pieces| == |ts| && Concat(pieces) + tail == m && (tail == "" || tail[0] as int == 10) && FitAll(ts, pieces, tail)
    && args == ReportedAll(ts, pieces)
  }

  /** A template matches a line with given arguments exactly when the line can be cut that way. */
  lemma MatchIffCut(ts: seq<Token>, m: string, args: seq<Arg>)
    ensures Match(ts, m) == Some(args) <==> exists pieces, tail :: Cuts(ts, m, args, pieces, tail)
  {
    if Match(ts, m) == Some(args) {
      var pieces, tail := MatchSound(ts, m);
      assert Cuts(ts, m, args, pieces, tail);
    }
    forall pieces, tail | Cuts(ts, m, args, pieces, tail) ensures Match(ts, m) == Some(args) {
      MatchComplete(ts, pieces, tail);
    }
  }

  // ----- print and parse

  /** What may be written for a token in front of `behind`.  `stopped` tells that the template puts the
      delimiter there itself. */
  ghost predicate Writable(tok: Token, piece: string, behind: string, stopped: bool) {
    match tok
    case Literal(c) => piece == [c] && c != '\n'
    case Blanks => piece + behind != "" && BlanksOnly(piece) && (behind == "" || !BlankCode(behind[0]))
    case NumberParam(_) => piece != "" && DigitsOnly(piece) && (behind == "" || !DigitCode(behind[0]))
    case TextParam(name, delimiter) =>
      piece != "" && TextOnly(piece, delimiter) && (stopped || behind == "" || !TextCode(behind[0], delimiter))
    case DateParam(_) => exists d :: Readable(d) && piece == RenderDate(d)
  }

  /** A named text parameter stops by itself unless escaped blanks behind it are written as nothing. */
  predicate Stopped(ts: seq<Token>, pieces: seq<string>)
    requires ts != [] && |ts| == |pieces|
  {
    ts[0].TextParam? && ts[0].name.Some? && (|ts| > 1 ==> pieces[1] != "")
  }

  ghost predicate WritableAll(ts: seq<Token>, pieces: seq<string>) {
    |ts| == |pieces| &&
    (ts != [] ==>
      Writable(ts[0], pieces[0], Concat(pieces[1..]), Stopped(ts, pieces)) && WritableAll(ts[1..], pieces[1..]))
  }

  /** Behind a named text parameter comes its delimiter. */
  predicate Follows(tok: Token, next: Token) {
    tok.TextParam? && tok.name.Some? ==> next == Literal(tok.delimiter) || (next.Blanks? && tok.delimiter == ' ')
  }

  /** The token behind a named text parameter starts with the parameter's delimiter. */
  predicate Delimited(ts: seq<Token>) {
    forall k :: 0 <= k < |ts| - 1 ==> Follows(ts[k], ts[k + 1])
  }

  lemma NextAfterText(t: string, l: Lexed, next: Token)
    requires t != "" && NextToken(t) == Some(l) && l.length < |t|
    requires NextToken(t[l.length..]).Some? && next == NextToken(t[l.length..]).value.token
    ensures Follows(l.token, next)
  {
    hide LexName;
    var rest := t[l.length..];
    assert rest[0] == t[l.length];
  }

  lemma {:induction false} TokeniseDelimits(t: string)
    requires Tokenise(t).Some?
    ensures Delimited(Tokenise(t).value)
    decreases |t|
  {
    if t != "" {
      hide NextToken;
      var l := NextToken(t).value;
      var rest := t[l.length..];
      TokeniseDelimits(rest);
      var ts := Tokenise(rest).value;
      if ts != [] { NextAfterText(t, l, NextToken(rest).value.token); }
    }
  }

  lemma {:induction false} WritableStarts(ts: seq<Token>, pieces: seq<string>)
    requires WritableAll(ts, pieces) && ts != []
    ensures !Ended(Concat(pieces))
    decreases ts
  {
    if ts[0].Blanks? && pieces[0] == "" {
      assert Concat(pieces) == Concat(pieces[1..]);
      WritableStarts(ts[1..], pieces[1..]);
    } else if ts[0].DateParam? {
      var d :| Readable(d) && pieces[0] == RenderDate(d);
      assert pieces[0][0] == MonthName(d.month)[0];
    } else {
      assert pieces[0][0] in pieces[0];
    }
  }

  lemma {:induction false} WritableFits(ts: seq<Token>, pieces: seq<string>, tail: string)
    requires Delimited(ts) && WritableAll(ts, pieces) && Ended(tail)
    ensures FitAll(ts, pieces, tail)
    decreases ts
  {
    if ts != [] {
      hide Writable, Fits;
      assert Delimited(ts[1..]) by {
        forall k | 0 <= k < |ts| - 2 ensures Follows(ts[1..][k], ts[1..][k + 1]) {
          assert Follows(ts[k + 1], ts[k + 2]);
        }
      }
      WritableFits(ts[1..], pieces[1..], tail);
      WritableStarts(ts, pieces);
      Assoc(pieces[0], Concat(pieces[1..]), tail);
      assert |ts| > 1 ==> Follows(ts[0], ts[1]);
      if |ts| > 1 && pieces[1] != "" { NextStarts(ts[1..], pieces[1..]); }
      FirstFits(ts, pieces, tail);
    }
  }

  /** What the text behind starts with, when the next token is a literal or blanks that are written. */
  lemma NextStarts(ts: seq<Token>, pieces: seq<string>)
    requires WritableAll(ts, pieces) && ts != [] && pieces[0] != ""
    ensures ts[0].Literal? ==> Concat(pieces)[0] == ts[0].c
    ensures ts[0].Blanks? ==> IsBlank(Concat(pieces)[0])
  {
    assert pieces[0][0] in pieces[0];
  }

  lemma FirstFits(ts: seq<Token>, pieces: seq<string>, tail: string)
    requires ts != [] && |ts| == |pieces| && Ended(tail) && !Ended(pieces[0] + (Concat(pieces[1..]) + tail))
    requires Writable(ts[0], pieces[0], Concat(pieces[1..]), Stopped(ts, pieces))
    requires |ts| > 1 ==> Follows(ts[0], ts[1])
    requires |ts| > 1 && pieces[1] != "" ==>
               (ts[1].Literal? ==> Concat(pieces[1..])[0] == ts[1].c) &&
               (ts[1].Blanks? ==> IsBlank(Concat(pieces[1..])[0]))
    ensures Fits(ts[0], pieces[0], Concat(pieces[1..]) + tail)
  {
    var behind := Concat(pieces[1..]);
    assert behind + tail != "" ==> (behind + tail)[0] == if behind == "" then tail[0] else behind[0];
    if |ts| == 1 { assert behind == ""; }
    match ts[0]
    case DateParam(_) =>
      var d :| Readable(d) && pieces[0] == RenderDate(d);
      RenderedDateReads(d);
    case _ =>
  }

  /** Writing admissible values into a well-formed template and parsing the line gives the values back,
      in template order. */
  lemma TemplateRoundTrip(t: string, pieces: seq<string>, tail: string)
    requires Tokenise(t).Some? && WritableAll(Tokenise(t).value, pieces) && (tail == "" || tail[0] as int == 10)
    ensures MatchText(t, Concat(pieces) + tail) == Some(ReportedAll(Tokenise(t).value, pieces))
  {
    var ts := Tokenise(t).value;
    TokeniseDelimits(t);
    WritableFits(ts, pieces, tail);
    MatchComplete(ts, pieces, tail);
    MatchTextIsMatch(t, Concat(pieces) + tail);
  }

  lemma ReadDateReported(name: string, piece: string, d: Stamp)
    requires ReadDate(piece) == Some(d)
    ensures Reported(DateParam(Some(name)), piece) == [Arg(Date, name, PrintDate(d))]
  {
    hide ReadDate, PrintDate;
  }

  /** A date is reported as the printed form of the very timestamp that was written. */
  lemma WrittenDateReported(name: string, d: Stamp)
    requires Readable(d)
    ensures Reported(DateParam(Some(name)), RenderDate(d)) == [Arg(Date, name, PrintDate(d))]
  {
    RenderedDateReads(d);
    ReadDateReported(name, RenderDate(d), d);
  }
}
