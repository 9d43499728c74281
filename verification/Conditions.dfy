/** The condition list of a count query: its textual form and the server's parser. */
module Conditions {
  import opened CStrings

  datatype Op = Equal | NotEqual | Below | Above

  datatype Cond = Cond(name: string, op: Op, value: string)

  datatype Problem = MissingOperator | EmptyName | MissingValue | NoConditions

  datatype Outcome = Conds(list: seq<Cond>) | Bad(problem: Problem)

  // ----- strtok

  datatype Token = Token(text: string, rest: string)

  /** `strtok` with the single delimiter `"`: leading quotes are skipped, the token ends at a quote. */
  function StrTok(s: string): (r: Option<Token>)
    ensures r.Some? ==> r.value.text != "" && Free(r.value.text, '"') && |r.value.rest| < |s|
    decreases |s|
  {
    if s == "" then None
    else if s[0] == '"' then StrTok(s[1..])
    else
      var k := Find(s, '"');
      Some(Token(s[..k], if k < |s| then s[k + 1..] else ""))
  }

  // ----- the grammar

  /** The operator character decides by kind, not by position: `=` before `!` before `<` before `>`. */
  function FindOp(p: string): (r: Option<(nat, Op)>)
    ensures r.Some? ==> r.value.0 < |p|
  {
    if Find(p, '=') < |p| then Some((Find(p, '='), Equal))
    else if Find(p, '!') < |p| then Some((Find(p, '!'), NotEqual))
    else if Find(p, '<') < |p| then Some((Find(p, '<'), Below))
    else if Find(p, '>') < |p| then Some((Find(p, '>'), Above))
    else None
  }

  function Unamped(p: string): string {
    if p != "" && p[0] == '&' then p[1..] else p
  }

  function Cons(c: Cond, r: Outcome): Outcome {
    match r case Bad(e) => Bad(e) case Conds(list) => Conds([c] + list)
  }

  function ParseFrom(s: string): Outcome
    decreases |s|
  {
    match StrTok(s)
    case None => Conds([])
    case Some(t) =>
      var p := Unamped(t.text);
      match FindOp(p)
      case None => Bad(MissingOperator)
      case Some((k, op)) =>
        if k == 0 then Bad(EmptyName)
        else match StrTok(t.rest)
          case None => Bad(MissingValue)
          case Some(v) => Cons(Cond(p[..k], op, v.text), ParseFrom(v.rest))
  }

  function Parse(s: string): Outcome {
    var r := ParseFrom(s);
    if r == Conds([]) then Bad(NoConditions) else r
  }

  lemma ConsAll(a: seq<Cond>, c: Cond, r: Outcome)
    ensures ConcatOutcome(a, Cons(c, r)) == ConcatOutcome(a + [c], r)
  {
    if r.Conds? { Assoc(a, [c], r.list); }
  }

  function ConcatOutcome(a: seq<Cond>, r: Outcome): Outcome {
    match r case Bad(e) => Bad(e) case Conds(list) => Conds(a + list)
  }

  method SkipQuotes(text: string, at: nat) returns (from: nat)
    requires at <= |text|
    ensures at <= from <= |text| && StrTok(text[from..]) == StrTok(text[at..])
    ensures from < |text| ==> text[from] != '"'
  {
    from := at;
    while from < |text| && text[from] == '"'
      invariant at <= from <= |text| && StrTok(text[from..]) == StrTok(text[at..])
    {
      assert text[from..][1..] == text[from + 1..];
      from := from + 1;
    }
  }

  /** `strtok(NULL, "\"")` from position `at`, with the position behind the token. */
  method NextToken(text: string, at: nat) returns (token: string, next: nat)
    requires at <= |text|
    ensures at <= next <= |text|
    ensures match StrTok(text[at..])
            case None => token == ""
            case Some(t) => token == t.text && text[next..] == t.rest && at < next
  {
    hide StrTok;
    var from := SkipQuotes(text, at);
    var to := from;
    while to < |text| && text[to] != '"'
      invariant from <= to <= |text| && forall k :: from <= k < to ==> text[k] != '"'
    {
      to := to + 1;
    }
    token := text[from..to];
    next := if to < |text| then to + 1 else to;
    TokenEnds(text, from, to);
  }

  lemma TokenEnds(text: string, from: nat, to: nat)
    requires from <= to <= |text| && (forall k :: from <= k < to ==> text[k] != '"')
    requires (to < |text| ==> text[to] == '"') && (from < |text| ==> text[from] != '"')
    ensures StrTok(text[from..])
         == if from == |text| then None
            else Some(Token(text[from..to], text[if to < |text| then to + 1 else to..]))
  {
    var t, n := text[from..], to - from;
    if from < |text| {
      assert t[..n] == text[from..to];
      FindIs(t, '"', n);
      if to < |text| { assert t[n + 1..] == text[to + 1..]; } else { assert text[to..] == ""; }
    }
  }

  function Rank(op: Op): nat {
    match op case Equal => 0 case NotEqual => 1 case Below => 2 case Above => 3
  }

  /** At `k` stands the first character of the kind `op`, and no kind of higher precedence occurs anywhere. */
  predicate Decides(p: string, k: nat, op: Op) {
    k < |p| && p[k] == OpChar(op) && Free(p[..k], OpChar(op))
    && forall o: Op :: Rank(o) < Rank(op) ==> Free(p, OpChar(o))
  }

  /** The operator that decides is the one of the grammar, and there is none without operator characters. */
  lemma OperatorIs(p: string, k: nat, op: Op)
    ensures Decides(p, k, op) ==> FindOp(p) == Some((k, op))
    ensures OpFree(p) ==> FindOp(p) == None
  {
    if Decides(p, k, op) {
      FindIs(p, OpChar(op), k);
      forall o: Op | Rank(o) < Rank(op) ensures Find(p, OpChar(o)) == |p| { Absent(p, OpChar(o)); }
      assert Rank(Equal) == 0 && Rank(NotEqual) == 1 && Rank(Below) == 2;
    }
    if OpFree(p) {
      forall o: Op ensures Find(p, OpChar(o)) == |p| { Absent(p, OpChar(o)); }
      assert OpChar(Equal) == '=' && OpChar(NotEqual) == '!' && OpChar(Below) == '<' && OpChar(Above) == '>';
    }
  }

  lemma Absent(p: string, c: char)
    requires Free(p, c)
    ensures Find(p, c) == |p|
  {
  }

  /** The four searches for an operator. */
  method ScanOperator(p: string) returns (k: nat, op: Option<Op>)
    ensures match op case None => OpFree(p) case Some(o) => Decides(p, k, o)
  {
    k := Find(p, '=');
    if k < |p| {
      return k, Some(Equal);
    }
    k := Find(p, '!');
    if k < |p| {
      return k, Some(NotEqual);
    }
    k := Find(p, '<');
    if k < |p| {
      return k, Some(Below);
    }
    k := Find(p, '>');
    if k < |p| {
      return k, Some(Above);
    }
    return k, None;
  }

  // ----- the grammar by its cases

  predicate QuotesOnly(s: string) {
    forall k :: 0 <= k < |s| ==> s[k] == '"'
  }

  lemma {:induction false} NoToken(s: string)
    ensures StrTok(s).None? <==> QuotesOnly(s)
    decreases |s|
  {
    if s != "" && s[0] == '"' {
      NoToken(s[1..]);
      assert forall k :: 1 <= k < |s| ==> s[k] == s[1..][k - 1];
      assert forall k :: 0 <= k < |s| - 1 ==> s[1..][k] == s[k + 1];
    }
  }

  /** A token between quotes, or up to the end. */
  lemma {:induction false} TokenIs(quotes: string, text: string, tail: string)
    requires QuotesOnly(quotes) && text != "" && Free(text, '"') && (tail != "" ==> tail[0] == '"')
    ensures StrTok(quotes + text + tail) == Some(Token(text, if tail == "" then "" else tail[1..]))
    decreases |quotes|
  {
    var s := quotes + text + tail;
    if quotes != "" {
      Assoc(quotes, text, tail);
      Assoc(quotes[1..], text, tail);
      assert s[0] == quotes[0] && (quotes + (text + tail))[1..] == quotes[1..] + (text + tail);
      TokenIs(quotes[1..], text, tail);
    } else {
      assert s[..|text|] == text && s == text + tail;
      FindIs(s, '"', |text|);
      if tail != "" { assert s[|text| + 1..] == tail[1..]; }
    }
  }

  /** The text of a condition is its token, without one ampersand in front. */
  predicate Unlead(token: string, p: string) {
    token == "&" + p || (token == p && p != "" && p[0] != '&')
  }

  lemma UnleadIs(token: string, p: string)
    requires Unlead(token, p)
    ensures Unamped(token) == p && token != ""
  {
  }

  /** Without an operator, and with an operator in front, a condition is refused, whatever follows. */
  lemma BadCondition(quotes: string, token: string, p: string, op: Op, tail: string)
    requires QuotesOnly(quotes) && Unlead(token, p) && Free(token, '"') && (tail != "" ==> tail[0] == '"')
    ensures OpFree(p) ==> ParseFrom(quotes + token + tail) == Bad(MissingOperator)
    ensures Decides(p, 0, op) ==> ParseFrom(quotes + token + tail) == Bad(EmptyName)
  {
    hide StrTok, FindOp, Unamped, Decides, OpFree;
    UnleadIs(token, p);
    TokenIs(quotes, token, tail);
    OperatorIs(p, 0, op);
  }

  /** A name with an operator needs a value: a text that is not empty, up to the next quote or the end. */
  lemma MissingValueIs(quotes: string, token: string, p: string, k: nat, op: Op, tail: string)
    requires QuotesOnly(quotes) && Unlead(token, p) && Free(token, '"') && Decides(p, k, op) && k > 0
    requires QuotesOnly(tail)
    ensures ParseFrom(quotes + token + tail) == Bad(MissingValue)
  {
    hide StrTok, FindOp, Unamped, Decides;
    UnleadIs(token, p);
    TokenIs(quotes, token, tail);
    OperatorIs(p, k, op);
    NoToken(if tail == "" then "" else tail[1..]);
  }

  lemma ConditionIs(quotes: string, token: string, p: string, k: nat, op: Op, more: string, value: string, tail: string)
    requires QuotesOnly(quotes) && Unlead(token, p) && Free(token, '"') && Decides(p, k, op) && k > 0
    requires QuotesOnly(more) && value != "" && Free(value, '"') && (tail != "" ==> tail[0] == '"')
    ensures ParseFrom(quotes + token + ("\"" + (more + value + tail)))
         == Cons(Cond(p[..k], op, value), ParseFrom(if tail == "" then "" else tail[1..]))
  {
    hide StrTok, FindOp, Unamped, Decides;
    UnleadIs(token, p);
    TokenIs(quotes, token, "\"" + (more + value + tail));
    OperatorIs(p, k, op);
    TokenIs(more, value, tail);
    assert ("\"" + (more + value + tail))[1..] == more + value + tail;
  }

  /** A text is refused for having no conditions exactly when it consists of quotes, and no text is parsed as
      an empty list. */
  lemma NoConditionsIs(s: string)
    ensures Parse(s) == Bad(NoConditions) <==> QuotesOnly(s)
    ensures Parse(s) != Conds([])
  {
    hide FindOp, Unamped;
    NoToken(s);
    NotThatProblem(s);
  }

  lemma {:induction false} NotThatProblem(s: string)
    ensures ParseFrom(s) != Bad(NoConditions) && (ParseFrom(s) == Conds([]) <==> StrTok(s).None?)
    decreases |s|
  {
    hide FindOp, Unamped;
    if StrTok(s).Some? {
      var t := StrTok(s).value;
      if StrTok(t.rest).Some? { NotThatProblem(StrTok(t.rest).value.rest); }
    }
  }

  /** Which of several operators counts, wherever they stand. */
  lemma Precedence(p: string)
    ensures '=' in p ==> FindOp(p).Some? && FindOp(p).value.1 == Equal
    ensures '=' !in p && '!' in p ==> FindOp(p).Some? && FindOp(p).value.1 == NotEqual
    ensures '=' !in p && '!' !in p && '<' in p ==> FindOp(p).Some? && FindOp(p).value.1 == Below
    ensures '=' !in p && '!' !in p && '<' !in p && '>' in p ==> FindOp(p).Some? && FindOp(p).value.1 == Above
  {
    Occurs(p, '=');
    Occurs(p, '!');
    Occurs(p, '<');
    Occurs(p, '>');
  }

  lemma Occurs(p: string, c: char)
    ensures c in p <==> Find(p, c) < |p|
  {
    NoneBefore(p, c);
  }

  /** The parsing loop of the query branch, filling the list of conditions. */
  method ParseConditions(text: string) returns (r: Outcome)
    ensures r == Parse(text)
    ensures r == Bad(NoConditions) <==> forall k :: 0 <= k < |text| ==> text[k] == '"'
    ensures r.Conds? ==> r.list != []
  {
    NoConditionsIs(text);
    hide StrTok, FindOp, Decides, OpFree;
    var conditions: seq<Cond> := [];
    assert text[0..] == text;
    ConcatNone(ParseFrom(text));
    TokensNonempty(text);
    var p, at := NextToken(text, 0);
    ghost var left: nat := 0;
    while p != ""
      invariant left <= at <= |text|
      invariant match StrTok(text[left..])
                case None => p == ""
                case Some(t) => p == t.text != "" && text[at..] == t.rest && left < at
      invariant ConcatOutcome(conditions, ParseFrom(text[left..])) == ParseFrom(text)
      decreases |text| - left
    {
      if p[0] == '&' {
        p := p[1..];
      }
      var k, op := ScanOperator(p);
      OperatorIs(p, k, if op.Some? then op.value else Equal);
      if op.None? {
        return Bad(MissingOperator);
      }
      var name := p[..k];
      if |name| == 0 {
        return Bad(EmptyName);
      }
      TokensNonempty(text[at..]);
      var value, next := NextToken(text, at);
      if value == "" {
        return Bad(MissingValue);
      }
      var c := Cond(name, op.value, value);
      ConsAll(conditions, c, ParseFrom(text[next..]));
      conditions := conditions + [c];
      left := next;
      TokensNonempty(text[next..]);
      p, at := NextToken(text, next);
    }
    NoTail(conditions);
    if |conditions| == 0 {
      return Bad(NoConditions);
    }
    return Conds(conditions);
  }

  lemma TokensNonempty(s: string)
    ensures StrTok(s).Some? ==> StrTok(s).value.text != ""
  {
  }

  // ----- printing

  function OpChar(op: Op): char {
    match op case Equal => '=' case NotEqual => '!' case Below => '<' case Above => '>'
  }

  function PrintCond(c: Cond): string {
    c.name + [OpChar(c.op)] + "\"" + c.value + "\""
  }

  /** Conditions joined by `&`, with one in front as well when `lead` is set. */
  function PrintList(cs: seq<Cond>, lead: bool): string {
    if cs == [] then "" else (if lead then "&" else "") + PrintCond(cs[0]) + PrintList(cs[1..], true)
  }

  predicate OpFree(s: string) {
    Free(s, '=') && Free(s, '!') && Free(s, '<') && Free(s, '>')
  }

  predicate Printable(c: Cond) {
    c.name != "" && c.name[0] != '&' && OpFree(c.name) && Free(c.name, '"') && c.value != "" && Free(c.value, '"')
  }

  lemma StrTokReads(text: string, rest: string)
    requires text != "" && Free(text, '"')
    ensures StrTok(text + ("\"" + rest)) == Some(Token(text, rest))
  {
    var s := text + ("\"" + rest);
    assert s[..|text|] == text && s[|text|] == '"' && s[|text| + 1..] == rest;
    FindIs(s, '"', |text|);
  }

  lemma FindOpReads(name: string, op: Op)
    requires OpFree(name)
    ensures FindOp(name + [OpChar(op)]) == Some((|name|, op))
  {
    var p := name + [OpChar(op)];
    assert p[..|name|] == name && p[..|p|] == p;
    assert p[|name|] == OpChar(op);
    FindIs(p, OpChar(op), |name|);
    forall c | c in "=!<>" && c != OpChar(op) ensures Find(p, c) == |p| {
      FindIs(p, c, |p|);
    }
  }

  lemma CondReads(c: Cond, lead: bool, rest: string)
    requires Printable(c)
    ensures ParseFrom((if lead then "&" else "") + PrintCond(c) + rest) == Cons(c, ParseFrom(rest))
  {
    hide StrTok, FindOp, OpFree, OpChar;
    var amp := if lead then "&" else "";
    var head := c.name + [OpChar(c.op)];
    var t := amp + head;
    var tail := c.value + ("\"" + rest);
    var s := amp + PrintCond(c) + rest;
    PrintedParts(amp, head, c.value, rest);
    assert Free(t, '"') by { assert OpChar(c.op) != '"' by { OpCharPlain(c.op); } }
    StrTokReads(t, tail);
    assert Unamped(t) == head by {
      if lead { assert t[1..] == head; } else { assert t == head && t[0] == c.name[0]; }
    }
    FindOpReads(c.name, c.op);
    assert head[..|c.name|] == c.name;
    StrTokReads(c.value, rest);
  }

  lemma OpCharPlain(op: Op)
    ensures OpChar(op) != '"' && OpChar(op) != '&'
  {
  }

  lemma PrintedParts(amp: string, head: string, value: string, rest: string)
    ensures amp + (head + "\"" + value + "\"") + rest == (amp + head) + ("\"" + (value + ("\"" + rest)))
  {
    Assoc(amp, head + "\"" + value + "\"", rest);
    Assoc(head + "\"" + value, "\"", rest);
    Assoc(head + "\"", value, "\"" + rest);
    Assoc(head, "\"", value + ("\"" + rest));
    Assoc(amp, head, "\"" + (value + ("\"" + rest)));
  }

  /** Whatever stands behind a printed list, it is read after the list. */
  lemma {:induction false} ListReads(cs: seq<Cond>, lead: bool, rest: string)
    requires forall c <- cs :: Printable(c)
    ensures ParseFrom(PrintList(cs, lead) + rest) == ConcatOutcome(cs, ParseFrom(rest))
    decreases |cs|
  {
    hide Printable, PrintCond, ParseFrom;
    if cs == [] {
      assert "" + rest == rest;
      ConcatNone(ParseFrom(rest));
    } else {
      var more := PrintList(cs[1..], true);
      Assoc((if lead then "&" else "") + PrintCond(cs[0]), more, rest);
      assert cs[0] in cs;
      CondReads(cs[0], lead, more + rest);
      ListReads(cs[1..], true, rest);
      ConsConcat(cs, ParseFrom(rest));
    }
  }

  lemma ConcatNone(r: Outcome)
    ensures ConcatOutcome([], r) == r
  {
    if r.Conds? { assert [] + r.list == r.list; }
  }

  lemma ConsConcat(cs: seq<Cond>, r: Outcome)
    requires cs != []
    ensures Cons(cs[0], ConcatOutcome(cs[1..], r)) == ConcatOutcome(cs, r)
  {
    if r.Conds? { assert [cs[0]] + (cs[1..] + r.list) == cs + r.list; }
  }

  /** Printing conditions and parsing the text gives the conditions back, with or without a leading `&`. */
  lemma ConditionsRoundTrip(cs: seq<Cond>, lead: bool)
    requires cs != [] && forall c <- cs :: Printable(c)
    ensures Parse(PrintList(cs, lead)) == Conds(cs)
  {
    hide PrintList, Printable;
    ListReads(cs, lead, "");
    NoTail(PrintList(cs, lead));
    assert ParseFrom("") == Conds([]);
    NoTail(cs);
  }

  // ----- appending to a user's conditions

  /** The text is empty or ends with the quote that closes its last value. */
  predicate Closed(u: string) {
    u == "" || u[|u| - 1] == '"'
  }

  lemma {:induction false} StrTokAppend(u: string, w: string)
    requires Closed(u)
    ensures match StrTok(u)
            case None => StrTok(u + w) == StrTok(w)
            case Some(t) => StrTok(u + w) == Some(Token(t.text, t.rest + w)) && Closed(t.rest)
    decreases |u|
  {
    hide Find;
    if u == "" {
      assert u + w == w;
    } else if u[0] == '"' {
      StrTokSkips(u, w);
      StrTokAppend(u[1..], w);
    } else {
      TokenAppend(u, w);
    }
  }

  lemma {:induction false} StrTokSkips(u: string, w: string)
    requires u != "" && u[0] == '"'
    ensures StrTok(u) == StrTok(u[1..]) && StrTok(u + w) == StrTok(u[1..] + w)
  {
    assert (u + w)[1..] == u[1..] + w;
  }

  lemma {:induction false} TokenAppend(u: string, w: string)
    requires Closed(u) && u != "" && u[0] != '"'
    ensures var k := Find(u, '"');
            k < |u| && Find(u + w, '"') == k && (u + w)[..k] == u[..k] && (u + w)[k + 1..] == u[k + 1..] + w
              && Closed(u[k + 1..])
  {
    var k, s := Find(u, '"'), u + w;
    NoneBefore(u, '"');
    assert u[|u| - 1] == '"';
    assert s[..k] == u[..k] && s[k + 1..] == u[k + 1..] + w;
    FindIs(s, '"', k);
  }

  /** Text appended to closed conditions is parsed on its own: the lists are concatenated. */
  lemma {:induction false} AppendParses(u: string, w: string)
    requires Closed(u) && ParseFrom(u).Conds?
    ensures ParseFrom(u + w) == ConcatOutcome(ParseFrom(u).list, ParseFrom(w))
    decreases |u|
  {
    hide FindOp, Unamped;
    StrTokAppend(u, w);
    match StrTok(u)
    case None => ParseFromSkips(u, w);
    case Some(t) =>
      StrTokAppend(t.rest, w);
      var v := StrTok(t.rest).value;
      AppendParses(v.rest, w);
      var cs := ParseFrom(u).list;
      assert cs[1..] == ParseFrom(v.rest).list;
      ConsConcat(cs, ParseFrom(w));
  }

  lemma ParseFromSkips(u: string, w: string)
    requires StrTok(u).None? && StrTok(u + w) == StrTok(w)
    ensures ParseFrom(u + w) == ConcatOutcome([], ParseFrom(w))
  {
    ConcatNone(ParseFrom(w));
  }

  lemma {:induction false} StrTokOpen(u: string, x: string, r: string)
    requires !Closed(u) && Free(x, '"')
    ensures StrTok(u).Some? && match StrTok(u)
      case Some(t) =>
        if t.rest == "" then StrTok(u + (x + ("\"" + r))) == Some(Token(t.text + x, r))
        else !Closed(t.rest) && StrTok(u + (x + ("\"" + r))) == Some(Token(t.text, t.rest + (x + ("\"" + r))))
    decreases |u|
  {
    var w := x + ("\"" + r);
    var s := u + w;
    hide Find;
    if u[0] == '"' {
      StrTokSkips(u, w);
      StrTokOpen(u[1..], x, r);
    } else {
      StrTokInside(u, x, r);
    }
  }

  lemma {:induction false} StrTokInside(u: string, x: string, r: string)
    requires u != "" && u[0] != '"' && !Closed(u) && Free(x, '"')
    ensures StrTok(u).Some? && match StrTok(u)
      case Some(t) =>
        if t.rest == "" then StrTok(u + (x + ("\"" + r))) == Some(Token(t.text + x, r))
        else !Closed(t.rest) && StrTok(u + (x + ("\"" + r))) == Some(Token(t.text, t.rest + (x + ("\"" + r))))
  {
    hide Find;
    var k := Find(u, '"');
    if k == |u| {
      assert u[..k] == u;
      Assoc(u, x, "\"" + r);
      StrTokReads(u + x, r);
    } else {
      InnerQuote(u, x + ("\"" + r), k);
    }
  }

  lemma InnerQuote(u: string, w: string, k: nat)
    requires k == Find(u, '"') < |u|
    ensures Find(u + w, '"') == k && (u + w)[..k] == u[..k] && (u + w)[k + 1..] == u[k + 1..] + w
  {
    hide Find;
    assert (u + w)[..k] == u[..k];
    FindIs(u + w, '"', k);
  }

  /** Conditions that end inside a value swallow the start of what is appended: the next token is then a
      value where a name is expected. */
  lemma {:induction false} AppendBreaks(u: string, x: string, date: string, r: string)
    requires !Closed(u) && ParseFrom(u).Conds?
    requires Free(x, '"') && date != "" && Free(date, '"') && OpFree(date) && date[0] != '&'
    ensures ParseFrom(u + (x + ("\"" + (date + ("\"" + r))))) == Bad(MissingOperator)
    decreases |u|
  {
    hide FindOp, Unamped, OpFree;
    var more := date + ("\"" + r);
    StrTokOpen(u, x, more);
    var t := StrTok(u).value;
    assert StrTok("").None?;
    assert t.rest != "";
    StrTokOpen(t.rest, x, more);
    var v := StrTok(t.rest).value;
    if v.rest == "" {
      StrTokReads(date, r);
      NoOperator(date);
      assert ParseFrom(more) == Bad(MissingOperator);
    } else {
      AppendBreaks(v.rest, x, date, r);
    }
  }

  lemma NoOperator(date: string)
    requires OpFree(date) && date != "" && date[0] != '&'
    ensures FindOp(Unamped(date)).None?
  {
    assert date[..|date|] == date;
    forall c | c in "=!<>" ensures Find(date, c) == |date| { FindIs(date, c, |date|); }
  }
}
