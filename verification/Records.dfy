/** The record an agent prints for a matched line, and what the text of a record determines. */
module Records {
  import opened CStrings
  import opened Dates
  import opened Templates

  const RULE_OPEN := "{\"rule\":\""
  const ARGS_OPEN := "\",\n\"args\":[\n"
  const VALUE_OPEN := "\",\"value\":\""
  const ARG_CLOSE := "\"},\n"
  const RECORD_CLOSE := "\n]}"
  const QUOTE := "\""

  function KindText(kind: Kind): string {
    match kind case Number => "number" case Text => "string" case Date => "date"
  }

  function ArgOpen(kind: Kind): string {
    match kind
    case Number => "\t{\"type\":\"number\",\"name\":\""
    case Text => "\t{\"type\":\"string\",\"name\":\""
    case Date => "\t{\"type\":\"date\",\"name\":\""
  }

  function Header(rule: string): string {
    RULE_OPEN + rule + ARGS_OPEN
  }

  /** One argument, without the comma behind it. */
  function PrintArg(a: Arg): string {
    ArgOpen(a.kind) + a.name + VALUE_OPEN + a.value + "\"}"
  }

  function PrintArgs(args: seq<Arg>): (r: seq<string>)
    ensures |r| == |args|
  {
    if args == [] then [] else [PrintArg(args[0])] + PrintArgs(args[1..])
  }

  /** The whole record: arguments separated by commas, none behind the last. */
  function Record(rule: string, args: seq<Arg>): string {
    Header(rule) + Join(PrintArgs(args), ",\n") + RECORD_CLOSE
  }

  /** An argument in full. */
  lemma ArgumentText(name: string, value: string)
    ensures PrintArg(Arg(Number, name, value))
         == "\t{\"type\":\"number\",\"name\":\"" + name + "\",\"value\":\"" + value + "\"}"
    ensures PrintArg(Arg(Text, name, value))
         == "\t{\"type\":\"string\",\"name\":\"" + name + "\",\"value\":\"" + value + "\"}"
    ensures PrintArg(Arg(Date, name, value))
         == "\t{\"type\":\"date\",\"name\":\"" + name + "\",\"value\":\"" + value + "\"}"
  {
  }

  /** A record in full: without arguments, with one, and with one more in front. */
  lemma RecordText(rule: string, a: Arg, rest: seq<Arg>)
    ensures Record(rule, []) == "{\"rule\":\"" + rule + "\",\n\"args\":[\n" + "\n]}"
    ensures Record(rule, [a]) == "{\"rule\":\"" + rule + "\",\n\"args\":[\n" + PrintArg(a) + "\n]}"
    ensures rest != [] ==> exists tail ::
              Record(rule, rest) == "{\"rule\":\"" + rule + "\",\n\"args\":[\n" + tail
              && Record(rule, [a] + rest) == "{\"rule\":\"" + rule + "\",\n\"args\":[\n" + (PrintArg(a) + ",\n" + tail)
  {
    hide PrintArg;
    var head := Header(rule);
    NoTail(head);
    assert PrintArgs([]) == [] && PrintArgs([a]) == [PrintArg(a)];
    if rest != [] {
      assert ([a] + rest)[1..] == rest && PrintArgs([a] + rest) == [PrintArg(a)] + PrintArgs(rest);
      assert PrintArgs([a] + rest)[1..] == PrintArgs(rest);
      var more := Join(PrintArgs(rest), ",\n");
      Assoc(head, more, RECORD_CLOSE);
      Assoc(head, PrintArg(a) + ",\n" + more, RECORD_CLOSE);
      Assoc(PrintArg(a) + ",\n", more, RECORD_CLOSE);
      var tail := more + RECORD_CLOSE;
      assert Record(rule, rest) == head + tail && Record(rule, [a] + rest) == head + (PrintArg(a) + ",\n" + tail);
    }
  }

  predicate CleanName(s: string) {
    forall c <- s :: IsNameChar(c)
  }

  predicate CleanValue(s: string) {
    forall c <- s :: ' ' <= c <= '~' && c != '"'
  }

  /** What a match can report: upper-case names, printable values without quotes, digits for numbers. */
  predicate Clean(a: Arg) {
    CleanName(a.name) && CleanValue(a.value) && (a.kind.Number? ==> forall c <- a.value :: IsDigit(c))
  }

  predicate CleanAll(args: seq<Arg>) {
    forall a <- args :: Clean(a)
  }

  lemma TakeIsClean(tok: Token, m: string)
    requires Take(tok, m).Some?
    requires !tok.Literal? && !tok.Blanks? && tok.name.Some? ==> CleanName(tok.name.value)
    ensures CleanAll(Take(tok, m).value.args)
  {
    hide ReadDate, PrintDate;
    var taken := Take(tok, m).value;
    match tok
    case Literal(_) =>
    case Blanks =>
    case DateParam(_) =>
    case NumberParam(_) =>
      assert forall c <- m[..taken.length] :: IsDigit(c);
    case TextParam(_, delimiter) =>
      assert forall c <- m[..taken.length] :: InText(c, delimiter);
  }

  /** Names and values by the codes of their characters. */
  lemma CleanCodes(a: Arg)
    ensures Clean(a) <==>
              (forall c <- a.name :: 65 <= c as int <= 90 || 48 <= c as int <= 57 || c as int == 95)
              && (forall c <- a.value :: 32 <= c as int <= 126 && c as int != 34)
              && (a.kind == Number ==> forall c <- a.value :: 48 <= c as int <= 57)
  {
  }

  lemma {:induction false} MatchedIsClean(t: string, m: string)
    requires MatchText(t, m).Some?
    ensures CleanAll(MatchText(t, m).value)
    decreases |t|
  {
    if t != "" {
      var l := NextToken(t).value;
      TakeIsClean(l.token, m);
      var taken := Take(l.token, m).value;
      MatchedIsClean(t[l.length..], m[taken.length..]);
    }
  }

  // ----- the record between its quotes

  /** The quote-free pieces from the colon behind "args" on. */
  function TailPieces(args: seq<Arg>, first: bool): (ps: seq<string>)
    ensures ps != []
  {
    if args == [] then [(if first then ":[\n" else "}") + RECORD_CLOSE]
    else ArgPieces(args[0], first) + TailPieces(args[1..], false)
  }

  function ArgPieces(a: Arg, first: bool): (ps: seq<string>)
    ensures |ps| == 12
  {
    [Lead(first) + "\t{", "type", ":", KindText(a.kind), ",",
     "name", ":", a.name, ",", "value", ":", a.value]
  }

  function Pieces(rule: string, args: seq<Arg>): seq<string> {
    ["{", "rule", ":", rule, ",\n", "args"] + TailPieces(args, true)
  }

  function Quoted(x: string, rest: string): string {
    x + QUOTE + rest
  }

  lemma JoinCons(x: string, ps: seq<string>)
    requires ps != []
    ensures Join([x] + ps, QUOTE) == Quoted(x, Join(ps, QUOTE))
  {
    assert ([x] + ps)[1..] == ps;
  }

  lemma JoinThree(x: string, y: string, z: string, ps: seq<string>)
    requires ps != []
    ensures Join([x, y, z] + ps, QUOTE) == Quoted(x, Quoted(y, Quoted(z, Join(ps, QUOTE))))
  {
    JoinCons(z, ps);
    JoinCons(y, [z] + ps);
    JoinCons(x, [y] + ([z] + ps));
    assert [x] + ([y] + ([z] + ps)) == [x, y, z] + ps;
  }

  /** Three quoted pieces in front of `r` are one literal in front of `r`. */
  lemma Fold3(a: string, b: string, c: string, r: string)
    ensures Quoted(a, Quoted(b, Quoted(c, r))) == a + QUOTE + b + QUOTE + c + QUOTE + r
  {
    Assoc(a + QUOTE, b + QUOTE, c + QUOTE + r);
    Assoc(a + QUOTE, b, QUOTE);
    Assoc(a + QUOTE + b + QUOTE, c + QUOTE, r);
    Assoc(a + QUOTE + b + QUOTE, c, QUOTE);
  }

  lemma ValueOpenIs()
    ensures QUOTE + ("," + QUOTE + "value" + QUOTE + ":" + QUOTE) == VALUE_OPEN
  {
  }

  const TYPE_OPEN := "\t{\"type\":\""
  const NAME_OPEN := "\",\"name\":\""

  lemma KindOpen(kind: Kind)
    ensures ArgOpen(kind) == TYPE_OPEN + (KindText(kind) + NAME_OPEN)
  {
    match kind
    case Number => assert "\t{\"type\":\"number\",\"name\":\"" == TYPE_OPEN + ("number" + NAME_OPEN);
    case Text => assert "\t{\"type\":\"string\",\"name\":\"" == TYPE_OPEN + ("string" + NAME_OPEN);
    case Date => assert "\t{\"type\":\"date\",\"name\":\"" == TYPE_OPEN + ("date" + NAME_OPEN);
  }

  lemma TypeOpenIs()
    ensures "\t{" + QUOTE + "type" + QUOTE + ":" + QUOTE == TYPE_OPEN
  {
  }

  lemma NameOpenIs()
    ensures QUOTE + ("," + QUOTE + "name" + QUOTE + (":" + QUOTE)) == NAME_OPEN
  {
  }

  lemma ArgOpenIs(kind: Kind)
    ensures "\t{" + QUOTE + "type" + QUOTE + ":" + QUOTE
          + (KindText(kind) + QUOTE + "," + QUOTE + "name" + QUOTE + (":" + QUOTE))
         == ArgOpen(kind)
  {
    var k, n, c := KindText(kind), "," + QUOTE + "name" + QUOTE, ":" + QUOTE;
    TypeOpenIs();
    NameOpenIs();
    KindOpen(kind);
    Assoc(k + QUOTE, ",", QUOTE);
    Assoc(k + QUOTE, "," + QUOTE, "name");
    Assoc(k + QUOTE, "," + QUOTE + "name", QUOTE);
    Assoc(k + QUOTE, n, c);
    Assoc(k, QUOTE, n + c);
  }

  function Lead(first: bool): string {
    if first then ":[\n" else "},\n"
  }

  /** From the name of an argument to the quote behind its value. */
  lemma JoinValue(name: string, value: string, ps: seq<string>)
    requires ps != []
    ensures Join([name, ",", "value", ":", value] + ps, QUOTE)
         == name + (VALUE_OPEN + (value + (QUOTE + Join(ps, QUOTE))))
  {
    var j := Quoted(value, Join(ps, QUOTE));
    JoinCons(value, ps);
    JoinThree(",", "value", ":", [value] + ps);
    JoinCons(name, [",", "value", ":"] + ([value] + ps));
    assert [name] + ([",", "value", ":"] + ([value] + ps)) == [name, ",", "value", ":", value] + ps;
    Fold3(",", "value", ":", j);
    var l := "," + QUOTE + "value" + QUOTE + ":" + QUOTE;
    Assoc(name, QUOTE, l + j);
    Assoc(QUOTE, l, j);
    ValueOpenIs();
    Assoc(value, QUOTE, Join(ps, QUOTE));
  }

  lemma JoinArg(a: Arg, first: bool, ps: seq<string>)
    requires ps != []
    ensures Join(ArgPieces(a, first) + ps, QUOTE)
         == Lead(first) + (ArgOpen(a.kind) + (a.name + (VALUE_OPEN + (a.value + (QUOTE + Join(ps, QUOTE))))))
  {
    hide Join, ArgOpen, KindText;
    var k := KindText(a.kind);
    var ps3 := [a.name, ",", "value", ":", a.value] + ps;
    var ps2 := [k, ",", "name"] + ([":"] + ps3);
    var j := Join(ps3, QUOTE);
    JoinValue(a.name, a.value, ps);
    JoinCons(":", ps3);
    JoinThree(k, ",", "name", [":"] + ps3);
    JoinThree(Lead(first) + "\t{", "type", ":", ps2);
    assert ArgPieces(a, first) + ps == [Lead(first) + "\t{", "type", ":"] + ps2;
    Fold3(k, ",", "name", Quoted(":", j));
    var m := k + QUOTE + "," + QUOTE + "name" + QUOTE;
    Assoc(m, ":" + QUOTE, j);
    var x := "\t{";
    Fold3(Lead(first) + x, "type", ":", m + (":" + QUOTE) + j);
    OpenFolds(Lead(first), x, m + (":" + QUOTE), j);
    ArgOpenIs(a.kind);
  }

  lemma OpenFolds(lead: string, x: string, m: string, j: string)
    ensures lead + x + QUOTE + "type" + QUOTE + ":" + QUOTE + (m + j)
         == lead + ((x + QUOTE + "type" + QUOTE + ":" + QUOTE + m) + j)
  {
    var t, c := "type", ":";
    Assoc(lead, x, QUOTE);
    Assoc(lead, x + QUOTE, t);
    Assoc(lead, x + QUOTE + t, QUOTE);
    Assoc(lead, x + QUOTE + t + QUOTE, c);
    Assoc(lead, x + QUOTE + t + QUOTE + c, QUOTE);
    var y := x + QUOTE + t + QUOTE + c + QUOTE;
    Assoc(lead, y, m + j);
    Assoc(y, m, j);
  }

  /** A printed argument, its parts in front of whatever follows. */
  lemma PrintArgFolds(a: Arg, r: string)
    ensures PrintArg(a) + r == ArgOpen(a.kind) + (a.name + (VALUE_OPEN + (a.value + (QUOTE + ("}" + r)))))
  {
    var o, n, v, w := ArgOpen(a.kind), a.name, VALUE_OPEN, a.value;
    var e := "\"}";
    assert e == QUOTE + "}";
    Assoc(o + n + v + w, e, r);
    Assoc(o + n + v, w, e + r);
    Assoc(o + n, v, w + (e + r));
    Assoc(o, n, v + (w + (e + r)));
    Assoc(QUOTE, "}", r);
  }

  lemma {:induction false} TailIsPieces(args: seq<Arg>, first: bool)
    requires args != []
    ensures Join(TailPieces(args, first), QUOTE) == Lead(first) + (Join(PrintArgs(args), ",\n") + RECORD_CLOSE)
    decreases |args|
  {
    var a, rest := args[0], args[1..];
    JoinArg(a, first, TailPieces(rest, false));
    assert PrintArgs(args)[1..] == PrintArgs(rest);
    if rest == [] {
      PrintArgFolds(a, RECORD_CLOSE);
    } else {
      TailIsPieces(rest, false);
      var more := Join(PrintArgs(rest), ",\n");
      assert Lead(false) == "}" + ",\n";
      Assoc("}", ",\n", more + RECORD_CLOSE);
      PrintArgFolds(a, ",\n" + (more + RECORD_CLOSE));
      Assoc(PrintArg(a), ",\n", more);
      Assoc(PrintArg(a) + ",\n", more, RECORD_CLOSE);
      Assoc(PrintArg(a), ",\n", more + RECORD_CLOSE);
    }
  }

  lemma HeaderIs(rule: string, body: string)
    ensures Quoted("{", Quoted("rule", Quoted(":", Quoted(rule, Quoted(",\n", Quoted("args", ":[\n" + body))))))
         == Header(rule) + body
  {
    var l := "{" + QUOTE + "rule" + QUOTE + ":" + QUOTE;
    assert l == RULE_OPEN;
    var m := ",\n" + QUOTE + "args" + QUOTE;
    assert QUOTE + (m + ":[\n") == ARGS_OPEN;
    Fold3("{", "rule", ":", Quoted(rule, Quoted(",\n", Quoted("args", ":[\n" + body))));
    Assoc(",\n" + QUOTE, "args" + QUOTE, ":[\n" + body);
    Assoc(",\n" + QUOTE, "args", QUOTE);
    Assoc(m, ":[\n", body);
    Assoc(rule, QUOTE, m + ":[\n" + body);
    Assoc(QUOTE, m + ":[\n", body);
    Assoc(l, rule, ARGS_OPEN + body);
    Assoc(l + rule, ARGS_OPEN, body);
  }

  lemma NoArgsPieces()
    ensures Join(TailPieces([], true), QUOTE) == ":[\n" + (Join(PrintArgs([]), ",\n") + RECORD_CLOSE)
  {
  }

  lemma RecordIsPieces(rule: string, args: seq<Arg>)
    ensures Record(rule, args) == Join(Pieces(rule, args), QUOTE)
  {
    hide Join, TailPieces, PrintArgs, Header;
    var tail := TailPieces(args, true);
    var body := Join(PrintArgs(args), ",\n");
    if args != [] { TailIsPieces(args, true); } else { NoArgsPieces(); }
    assert Join(tail, QUOTE) == ":[\n" + (body + RECORD_CLOSE);
    JoinThree(rule, ",\n", "args", tail);
    JoinThree("{", "rule", ":", [rule, ",\n", "args"] + tail);
    assert Pieces(rule, args) == ["{", "rule", ":"] + ([rule, ",\n", "args"] + tail);
    HeaderIs(rule, body + RECORD_CLOSE);
    Assoc(Header(rule), body, RECORD_CLOSE);
  }

  // ----- reading a record back

  /** Free of quotes, NULs and closing brackets, as every fixed piece and every name is. */
  predicate Plain(s: string) {
    Free(s, '"') && Free(s, '\0') && Free(s, ']')
  }

  lemma FixedPiecesPlain()
    ensures Plain("type") && Plain(":") && Plain(",") && Plain("name") && Plain("value")
    ensures Plain("number") && Plain("string") && Plain("date")
    ensures Plain(":[\n\t{") && Plain("},\n\t{") && Plain("{") && Plain("rule") && Plain(",\n") && Plain("args")
  {
  }

  lemma NamePlain(s: string)
    requires CleanName(s)
    ensures Plain(s)
  {
    assert forall k :: 0 <= k < |s| ==> s[k] in s;
  }

  lemma ValueFree(s: string)
    requires CleanValue(s)
    ensures Free(s, '"') && Free(s, '\0')
  {
    assert forall k :: 0 <= k < |s| ==> s[k] in s;
  }

  lemma ArgPiecesPlain(a: Arg, first: bool, k: nat)
    requires CleanName(a.name) && k < 11
    ensures Plain(ArgPieces(a, first)[k])
  {
    FixedPiecesPlain();
    assert ":[\n" + "\t{" == ":[\n\t{" && "},\n" + "\t{" == "},\n\t{";
    NamePlain(a.name);
  }

  lemma HeadPlain(rule: string, args: seq<Arg>, k: nat)
    requires CleanName(rule) && k < 6
    ensures Plain(Pieces(rule, args)[k])
  {
    FixedPiecesPlain();
    NamePlain(rule);
  }

  lemma TailQuoteFree(args: seq<Arg>, first: bool)
    requires CleanAll(args)
    ensures forall p <- TailPieces(args, first) :: Free(p, '"') && Free(p, '\0')
    decreases |args|
  {
    if args != [] {
      assert Clean(args[0]);
      forall k | 0 <= k < 11 ensures Plain(ArgPieces(args[0], first)[k]) { ArgPiecesPlain(args[0], first, k); }
      ValueFree(args[0].value);
      assert ArgPieces(args[0], first)[11] == args[0].value;
      TailQuoteFree(args[1..], false);
    }
  }

  lemma PiecesQuoteFree(rule: string, args: seq<Arg>)
    requires CleanName(rule) && CleanAll(args)
    ensures forall p <- Pieces(rule, args) :: Free(p, '"') && Free(p, '\0')
  {
    TailQuoteFree(args, true);
    forall k | 0 <= k < 6 ensures Plain(Pieces(rule, args)[k]) { HeadPlain(rule, args, k); }
  }

  function KindOf(text: string): Kind {
    if text == "number" then Number else if text == "date" then Date else Text
  }

  function DecodeArgs(ps: seq<string>): seq<Arg>
    decreases |ps|
  {
    if |ps| < 13 then [] else [Arg(KindOf(ps[3]), ps[7], ps[11])] + DecodeArgs(ps[12..])
  }

  /** Rule name and arguments, recovered from the text alone by cutting it at its quotes. */
  function Decode(record: string): Option<(string, seq<Arg>)> {
    var ps := Split(record, '"');
    if |ps| < 7 then None else Some((ps[3], DecodeArgs(ps[6..])))
  }

  lemma {:induction false} TailDecodes(args: seq<Arg>, first: bool)
    ensures DecodeArgs(TailPieces(args, first)) == args
    decreases |args|
  {
    if args != [] {
      var ps := TailPieces(args, first);
      TailDecodes(args[1..], false);
      assert ps[12..] == TailPieces(args[1..], false);
      assert ps[..12] == ArgPieces(args[0], first);
      assert ps[3] == ps[..12][3] && ps[7] == ps[..12][7] && ps[11] == ps[..12][11];
    }
  }

  /** The emitted text determines the rule name and every (type, name, value) in order, with any
      number of arguments, none included. */
  lemma RecordRoundTrip(rule: string, args: seq<Arg>)
    requires CleanName(rule) && CleanAll(args)
    ensures Decode(Record(rule, args)) == Some((rule, args))
  {
    var ps := Pieces(rule, args);
    RecordIsPieces(rule, args);
    PiecesQuoteFree(rule, args);
    SplitJoin(ps, '"');
    TailDecodes(args, true);
    assert ps[6..] == TailPieces(args, true);
  }

  // ----- where a record ends

  const CLOSE := "]}"

  predicate NoClose(s: string) {
    StrStr(s, CLOSE).None?
  }

  /** The first "]}" of the text is its end. */
  predicate Closes(s: string) {
    |s| >= 2 && StrStr(s, CLOSE) == Some(|s| - 2)
  }

  lemma CloseAt(s: string, k: nat)
    ensures OccursAt(s, CLOSE, k) <==> k + 2 <= |s| && s[k] == ']' && s[k + 1] == '}'
  {
    if k + 2 <= |s| {
      var t := s[k..];
      assert t[0] == s[k] && t[1] == s[k + 1];
      assert CLOSE <= t <==> t[..2] == CLOSE;
    }
  }

  lemma CloseAcross(x: string, r: string, k: nat)
    ensures OccursAt(Quoted(x, r), CLOSE, k) <==>
            OccursAt(x, CLOSE, k) || (k > |x| && OccursAt(r, CLOSE, k - |x| - 1))
  {
    CloseAt(Quoted(x, r), k);
    CloseAt(x, k);
    if k > |x| { CloseAt(r, k - |x| - 1); }
  }

  lemma CloseAcrossAll(x: string, r: string)
    ensures forall k: nat :: OccursAt(Quoted(x, r), CLOSE, k) ==>
              OccursAt(x, CLOSE, k) || (k > |x| && OccursAt(r, CLOSE, k - |x| - 1))
    ensures forall k: nat :: OccursAt(x, CLOSE, k) ==> OccursAt(Quoted(x, r), CLOSE, k)
    ensures forall k: nat :: OccursAt(r, CLOSE, k) ==> OccursAt(Quoted(x, r), CLOSE, |x| + 1 + k)
  {
    var s := Quoted(x, r);
    forall k: nat | OccursAt(s, CLOSE, k)
      ensures OccursAt(x, CLOSE, k) || (k > |x| && OccursAt(r, CLOSE, k - |x| - 1))
    {
      CloseAcross(x, r, k);
    }
    forall k: nat | OccursAt(x, CLOSE, k) ensures OccursAt(s, CLOSE, k) { CloseAcross(x, r, k); }
    forall k: nat | OccursAt(r, CLOSE, k) ensures OccursAt(s, CLOSE, |x| + 1 + k) { CloseAcross(x, r, |x| + 1 + k); }
  }

  lemma QuotedCloses(x: string, r: string)
    ensures Closes(Quoted(x, r)) <==> NoClose(x) && Closes(r)
  {
    var s, n := Quoted(x, r), |x| + 1;
    assert |s| == n + |r|;
    CloseAcrossAll(x, r);
    if NoClose(x) && Closes(r) {
      StrStrIs(s, CLOSE, n + (|r| - 2));
    }
    if Closes(s) { QuotedClosesBack(x, r); }
  }

  lemma QuotedClosesBack(x: string, r: string)
    requires Closes(Quoted(x, r))
    ensures NoClose(x) && Closes(r)
  {
    var s, n := Quoted(x, r), |x| + 1;
    assert |s| == n + |r|;
    CloseAcrossAll(x, r);
    CloseAt(x, |s| - 2);
    assert NoClose(x);
    CloseAt(r, |s| - 2 - n);
    StrStrIs(r, CLOSE, |r| - 2);
  }

  lemma {:induction false} JoinCloses(ps: seq<string>)
    requires ps != []
    ensures Closes(Join(ps, QUOTE)) <==> (forall k :: 0 <= k < |ps| - 1 ==> NoClose(ps[k])) && Closes(ps[|ps| - 1])
  {
    if |ps| > 1 {
      QuotedCloses(ps[0], Join(ps[1..], QUOTE));
      JoinCloses(ps[1..]);
      assert forall k :: 1 <= k < |ps| ==> ps[k] == ps[1..][k - 1];
      assert forall k :: 0 <= k < |ps| - 1 ==> ps[1..][k] == ps[k + 1];
    }
  }

  /** Pieces in front that hold no closing pair make no difference. */
  lemma FrontCloses(ps: seq<string>, n: nat)
    requires n < |ps| && forall k :: 0 <= k < n ==> NoClose(ps[k])
    ensures Closes(Join(ps, QUOTE)) <==> Closes(Join(ps[n..], QUOTE))
  {
    hide Closes, NoClose, Join;
    JoinCloses(ps);
    JoinCloses(ps[n..]);
    assert forall k :: n <= k < |ps| ==> ps[k] == ps[n..][k - n];
    assert forall k :: 0 <= k < |ps| - n ==> ps[n..][k] == ps[k + n];
  }

  lemma FreeNoClose(s: string)
    requires Free(s, ']') || Free(s, '}')
    ensures NoClose(s)
  {
    forall k: nat ensures !OccursAt(s, CLOSE, k) { CloseAt(s, k); }
  }

  lemma ArgPieceCloses(a: Arg, first: bool, k: nat)
    requires CleanName(a.name) && k < 11
    ensures NoClose(ArgPieces(a, first)[k])
  {
    ArgPiecesPlain(a, first, k);
    FreeNoClose(ArgPieces(a, first)[k]);
  }

  lemma ArgValuePiece(a: Arg, first: bool)
    ensures ArgPieces(a, first)[11] == a.value
  {
  }

  lemma LastPieceCloses(s: string)
    requires s == ":[\n" + RECORD_CLOSE || s == "}" + RECORD_CLOSE
    ensures Closes(s)
  {
    var n := |s| - 2;
    assert s[n] == ']' && s[n + 1] == '}' && forall k :: 0 <= k < n ==> s[k] != ']';
    CloseAt(s, n);
    forall k: nat | k < n ensures !OccursAt(s, CLOSE, k) { CloseAt(s, k); }
    StrStrIs(s, CLOSE, n);
  }

  lemma TailStep(args: seq<Arg>, first: bool)
    requires args != []
    ensures TailPieces(args, first) == ArgPieces(args[0], first) + TailPieces(args[1..], false)
  {
  }

  lemma ArgCloses(a: Arg, first: bool, rest: seq<string>)
    requires CleanName(a.name) && rest != []
    ensures Closes(Join(ArgPieces(a, first) + rest, QUOTE)) <==> NoClose(a.value) && Closes(Join(rest, QUOTE))
  {
    hide Closes, NoClose, ArgPieces, Join;
    var ps := ArgPieces(a, first) + rest;
    JoinCloses(ps);
    JoinCloses(rest);
    ArgValuePiece(a, first);
    forall k | 0 <= k < 11 ensures NoClose(ps[k]) { ArgPieceCloses(a, first, k); }
    assert ps[11] == a.value;
    assert forall k :: 12 <= k < |ps| ==> ps[k] == rest[k - 12];
    assert forall k :: 0 <= k < |rest| ==> rest[k] == ps[k + 12];
  }

  lemma {:induction false} TailCloses(args: seq<Arg>, first: bool)
    requires forall a <- args :: CleanName(a.name)
    ensures Closes(Join(TailPieces(args, first), QUOTE)) <==> forall a <- args :: NoClose(a.value)
    decreases |args|
  {
    var ps := TailPieces(args, first);
    if args == [] {
      LastPieceCloses(ps[0]);
    } else {
      hide Closes, NoClose, ArgPieces, Join, TailPieces;
      var a, rest := args[0], args[1..];
      TailStep(args, first);
      TailCloses(rest, false);
      ArgCloses(a, first, TailPieces(rest, false));
      assert forall b :: b in args <==> b == a || b in rest;
    }
  }

  /** A closing square bracket with a closing brace behind it. */
  predicate PairAt(s: string, k: nat) {
    k + 1 < |s| && s[k] as int == 93 && s[k + 1] as int == 125
  }

  lemma PairIsClose(s: string, k: nat)
    ensures PairAt(s, k) <==> OccursAt(s, CLOSE, k)
  {
    CloseAt(s, k);
  }

  lemma NoPair(s: string)
    ensures NoClose(s) <==> forall k: nat :: !PairAt(s, k)
  {
    hide OccursAt, PairAt;
    forall k: nat ensures PairAt(s, k) <==> OccursAt(s, CLOSE, k) { PairIsClose(s, k); }
    assert StrStr(s, CLOSE).Some? ==> PairAt(s, StrStr(s, CLOSE).value);
  }

  lemma FirstPair(s: string)
    requires |s| >= 2 && PairAt(s, |s| - 2)
    ensures Closes(s) <==> forall k: nat :: PairAt(s, k) ==> k == |s| - 2
  {
    hide OccursAt;
    forall k: nat ensures PairAt(s, k) <==> OccursAt(s, CLOSE, k) { PairIsClose(s, k); }
    var p := StrStr(s, CLOSE);
    assert OccursAt(s, CLOSE, |s| - 2);
    assert p.Some? && PairAt(s, p.value) && p.value <= |s| - 2;
  }

  /** The same by the characters. */
  lemma RecordEnds(rule: string, args: seq<Arg>)
    requires CleanName(rule) && CleanAll(args)
    ensures (forall k: nat :: PairAt(Record(rule, args), k) ==> k == |Record(rule, args)| - 2)
            <==> forall a <- args, k: nat :: !PairAt(a.value, k)
  {
    hide Record, PairAt, Closes, NoClose, CleanName, CleanAll;
    RecordEnd(rule, args);
    RecordCloses(rule, args);
    FirstPair(Record(rule, args));
    forall a | a in args ensures NoClose(a.value) <==> forall k: nat :: !PairAt(a.value, k) { NoPair(a.value); }
  }

  lemma RecordEnd(rule: string, args: seq<Arg>)
    ensures var s := Record(rule, args);
            |s| >= 2 && PairAt(s, |s| - 2)
  {
  }

  /** The splitter on the server finds the end of a record at the end of the record, exactly when no
      captured value contains the two closing characters. */
  lemma {:induction false} RecordCloses(rule: string, args: seq<Arg>)
    requires CleanName(rule) && CleanAll(args)
    ensures Closes(Record(rule, args)) <==> forall a <- args :: NoClose(a.value)
  {
    hide Closes, NoClose, Record, Join;
    var ps, tail := Pieces(rule, args), TailPieces(args, true);
    RecordIsPieces(rule, args);
    assert forall a <- args :: Clean(a);
    TailCloses(args, true);
    forall k | 0 <= k < 6 ensures NoClose(ps[k]) { HeadPlain(rule, args, k); FreeNoClose(ps[k]); }
    assert ps[6..] == tail;
    FrontCloses(ps, 6);
  }

  /** No record holds a NUL, so it travels as a C string. */
  lemma {:induction false} RecordHasNoNul(rule: string, args: seq<Arg>)
    requires CleanName(rule) && CleanAll(args)
    ensures Free(Record(rule, args), '\0')
  {
    RecordIsPieces(rule, args);
    PiecesQuoteFree(rule, args);
    JoinFree(Pieces(rule, args), QUOTE, '\0');
  }
}
