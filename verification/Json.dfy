/** A recogniser for the JSON grammar of RFC 8259, and when an emitted record is valid JSON. */
module Json {
  import opened CStrings
  import opened Templates
  import opened Records

  // ----- the grammar.  Each function consumes one construct and returns the text behind it.

  predicate IsWs(c: char) { c == ' ' || c == '\t' || c == '\n' || c == '\r' }

  function SkipWs(s: string): (r: string)
    ensures |r| <= |s|
  {
    s[Span(s, IsWs)..]
  }

  predicate IsHex(c: char) { IsDigit(c) || 'a' <= c <= 'f' || 'A' <= c <= 'F' }

  /** The length of the escape sequence at the front of `s`, 0 when it is not one (section 7). */
  function EscapeLength(s: string): (n: nat)
    ensures n <= |s|
  {
    if |s| < 2 || s[0] != '\\' then 0
    else if s[1] in "\"\\/bfnrt" then 2
    else if s[1] == 'u' && |s| >= 6 && IsHex(s[2]) && IsHex(s[3]) && IsHex(s[4]) && IsHex(s[5]) then 6
    else 0
  }

  predicate HexCode(c: char) {
    48 <= c as int <= 57 || 97 <= c as int <= 102 || 65 <= c as int <= 70
  }

  /** The escapes by the codes of their characters: a backslash with quote, backslash, slash, b, f, n, r or t,
      or with u and four hexadecimal digits. */
  lemma EscapeCodes(s: string)
    ensures EscapeLength(s) == 2 <==>
              |s| >= 2 && s[0] as int == 92 && s[1] as int in {34, 92, 47, 98, 102, 110, 114, 116}
    ensures EscapeLength(s) == 6 <==>
              |s| >= 6 && s[0] as int == 92 && s[1] as int == 117 && forall k :: 2 <= k < 6 ==> HexCode(s[k])
    ensures EscapeLength(s) in {0, 2, 6}
  {
    assert |s| >= 6 ==> ((forall k :: 2 <= k < 6 ==> HexCode(s[k])) <==>
                         HexCode(s[2]) && HexCode(s[3]) && HexCode(s[4]) && HexCode(s[5]));
  }

  /** Characters up to and including the closing quote (section 7). */
  function String(s: string): (r: Option<string>)
    ensures r.Some? ==> |r.value| < |s|
    decreases |s|
  {
    if s == "" || s[0] < ' ' then None
    else if s[0] == '"' then Some(s[1..])
    else if s[0] != '\\' then String(s[1..])
    else if EscapeLength(s) == 0 then None
    else String(s[EscapeLength(s)..])
  }

  function Digits(s: string): (r: Option<string>)
    ensures r.Some? ==> |r.value| < |s|
  {
    var n := Span(s, IsDigit);
    if n == 0 then None else Some(s[n..])
  }

  function Exponent(s: string): (r: Option<string>)
    ensures r.Some? ==> |r.value| <= |s|
  {
    if s == "" || (s[0] != 'e' && s[0] != 'E') then Some(s)
    else if |s| >= 2 && (s[1] == '+' || s[1] == '-') then Digits(s[2..])
    else Digits(s[1..])
  }

  /** Section 6. */
  function Number(s: string): (r: Option<string>)
    ensures r.Some? ==> |r.value| < |s|
  {
    var t := if s != "" && s[0] == '-' then s[1..] else s;
    var whole := if t != "" && t[0] == '0' then Some(t[1..]) else Digits(t);
    if whole.None? then None
    else if whole.value == "" || whole.value[0] != '.' then Exponent(whole.value)
    else match Digits(whole.value[1..]) case None => None case Some(u) => Exponent(u)
  }

  /** Section 3. */
  function Value(s: string): (r: Option<string>)
    ensures r.Some? ==> |r.value| < |s|
    decreases |s|, 0
  {
    var t := SkipWs(s);
    if t == "" then None
    else if t[0] == '"' then String(t[1..])
    else if t[0] == '{' then
      var u := SkipWs(t[1..]);
      if u != "" && u[0] == '}' then Some(u[1..]) else Members(u)
    else if t[0] == '[' then
      var u := SkipWs(t[1..]);
      if u != "" && u[0] == ']' then Some(u[1..]) else Elements(u)
    else if "true" <= t || "null" <= t then Some(t[4..])
    else if "false" <= t then Some(t[5..])
    else Number(t)
  }

  /** Section 4, behind the opening brace. */
  function Members(s: string): (r: Option<string>)
    ensures r.Some? ==> |r.value| < |s|
    decreases |s|
  {
    if s == "" || s[0] != '"' then None
    else match String(s[1..])
      case None => None
      case Some(a) =>
        var b := SkipWs(a);
        if b == "" || b[0] != ':' then None
        else match Value(b[1..]) case None => None case Some(c) => MoreMembers(c)
  }

  function MoreMembers(s: string): (r: Option<string>)
    ensures r.Some? ==> |r.value| < |s|
    decreases |s|
  {
    var d := SkipWs(s);
    if d == "" then None
    else if d[0] == '}' then Some(d[1..])
    else if d[0] == ',' then Members(SkipWs(d[1..]))
    else None
  }

  /** Section 5, behind the opening bracket. */
  function Elements(s: string): (r: Option<string>)
    ensures r.Some? ==> |r.value| < |s|
    decreases |s|, 1
  {
    match Value(s) case None => None case Some(c) => MoreElements(c)
  }

  function MoreElements(s: string): (r: Option<string>)
    ensures r.Some? ==> |r.value| < |s|
    decreases |s|
  {
    var d := SkipWs(s);
    if d == "" then None
    else if d[0] == ']' then Some(d[1..])
    else if d[0] == ',' then Elements(d[1..])
    else None
  }

  /** Section 2: one value, with nothing but white space around it. */
  predicate IsJson(s: string) {
    match Value(s) case None => false case Some(rest) => SkipWs(rest) == ""
  }

  // ----- strings inside a record

  /** Every backslash in a captured value starts a JSON escape that the value itself completes. */
  predicate EscapesOk(v: string)
    decreases |v|
  {
    if v == "" then true
    else if v[0] != '\\' then EscapesOk(v[1..])
    else EscapeLength(v) != 0 && EscapesOk(v[EscapeLength(v)..])
  }

  lemma {:induction false} NoBackslash(v: string)
    requires Free(v, '\\')
    ensures EscapesOk(v)
  {
    if v != "" { NoBackslash(v[1..]); }
  }

  /** What stands behind the value of an argument: a brace, and soon a raw newline. */
  predicate AfterValue(r: string) {
    "}\n" <= r || "},\n" <= r
  }

  lemma BrokenString(r: string)
    requires AfterValue(r)
    ensures String(r).None?
  {
    assert r[0] == '}';
    if r[1] == '\n' {
      assert String(r[1..]).None?;
    } else {
      assert r[1] == ',' && r[2] == '\n';
      assert String(r[1..][1..]).None?;
      assert String(r[1..]).None?;
    }
  }

  lemma StringEscape(v: string, r: string)
    requires CleanValue(v) && v != "" && v[0] == '\\'
    ensures EscapeLength(v) != 0 ==> EscapeLength(v + (QUOTE + r)) == EscapeLength(v)
    ensures EscapeLength(v) == 0 ==> EscapeLength(v + (QUOTE + r)) == if |v| == 1 then 2 else 0
  {
    var s := v + (QUOTE + r);
    assert forall k :: 0 <= k < |v| ==> s[k] == v[k] && v[k] in v;
    assert s[|v|] == '"';
    assert |v| < 6 && |s| >= 6 ==> s[2] == '"' || s[3] == '"' || s[4] == '"' || s[5] == '"' || |v| == 1;
  }

  lemma DropFront(v: string, w: string, n: nat)
    requires n <= |v|
    ensures (v + w)[n..] == v[n..] + w
  {
  }

  /** A value with its closing quote is a JSON string exactly when its escapes are complete: an
      unfinished one swallows the quote and runs into a newline. */
  lemma {:induction false} StringValue(v: string, r: string)
    requires CleanValue(v) && AfterValue(r)
    ensures String(v + (QUOTE + r)) == if EscapesOk(v) then Some(r) else None
    decreases |v|
  {
    hide EscapeLength;
    var w := QUOTE + r;
    var s := v + w;
    assert w[1..] == r;
    if v == "" {
      assert s == w;
    } else {
      assert s[0] == v[0] && v[0] in v;
      if v[0] != '\\' {
        DropFront(v, w, 1);
        assert CleanValue(v[1..]) by { assert forall c :: c in v[1..] ==> c in v; }
        StringValue(v[1..], r);
      } else {
        StringEscape(v, r);
        var n := EscapeLength(v);
        if n != 0 {
          DropFront(v, w, n);
          assert CleanValue(v[n..]) by { assert forall c :: c in v[n..] ==> c in v; }
          StringValue(v[n..], r);
        } else if |v| == 1 {
          DropFront(v, w, 1);
          assert v[1..] + w == w && s[2..] == s[1..][1..];
          BrokenString(r);
        }
      }
    }
  }

  /** Text that a JSON string holds as it is. */
  predicate Unescaped(s: string) {
    forall c <- s :: ' ' <= c && c != '"' && c != '\\'
  }

  lemma {:induction false} StringName(x: string, r: string)
    requires Unescaped(x)
    ensures String(x + (QUOTE + r)) == Some(r)
    decreases |x|
  {
    var s := x + (QUOTE + r);
    if x == "" {
      assert s == QUOTE + r && s[1..] == r;
    } else {
      assert s[0] == x[0] && x[0] in x && s[1..] == x[1..] + (QUOTE + r);
      assert forall c :: c in x[1..] ==> c in x;
      StringName(x[1..], r);
    }
  }

  // ----- objects and arrays inside a record

  lemma {:induction false} NoWs(s: string)
    requires s != "" && !IsWs(s[0])
    ensures SkipWs(s) == s
  {
  }

  lemma {:induction false} OneWs(c: char, s: string)
    requires IsWs(c)
    ensures SkipWs([c] + s) == SkipWs(s)
  {
    var t := [c] + s;
    assert t[1..] == s;
    assert Span(t, IsWs) == 1 + Span(s, IsWs);
  }

  /** A member whose key is plain: what matters is its value. */
  lemma Member(key: string, v: string)
    requires Unescaped(key)
    ensures Members(QUOTE + (key + (QUOTE + (":" + v))))
         == match Value(v) case None => None case Some(c) => MoreMembers(c)
  {
    var s := QUOTE + (key + (QUOTE + (":" + v)));
    StringName(key, ":" + v);
    assert s[1..] == key + (QUOTE + (":" + v));
    NoWs(":" + v);
    assert (":" + v)[1..] == v;
  }

  lemma QuotedValue(y: string)
    ensures Value(QUOTE + y) == String(y)
  {
    NoWs(QUOTE + y);
    assert (QUOTE + y)[1..] == y;
  }

  lemma CommaMembers(s: string)
    requires s != "" && !IsWs(s[0])
    ensures MoreMembers("," + s) == Members(s)
  {
    NoWs("," + s);
    assert ("," + s)[1..] == s;
    NoWs(s);
  }

  lemma CloseMembers(r: string)
    ensures MoreMembers("}" + r) == Some(r)
  {
    NoWs("}" + r);
    assert ("}" + r)[1..] == r;
  }

  lemma LiteralKeys()
    ensures TYPE_OPEN == "\t" + ("{" + (QUOTE + ("type" + (QUOTE + (":" + QUOTE)))))
    ensures NAME_OPEN == QUOTE + ("," + (QUOTE + ("name" + (QUOTE + (":" + QUOTE)))))
    ensures VALUE_OPEN == QUOTE + ("," + (QUOTE + ("value" + (QUOTE + (":" + QUOTE)))))
  {
  }

  /** A literal key opening in front of `y`, re-associated. */
  lemma KeyOpen(key: string, y: string)
    ensures (QUOTE + (key + (QUOTE + (":" + QUOTE)))) + y == QUOTE + (key + (QUOTE + (":" + (QUOTE + y))))
  {
    Assoc(QUOTE, key + (QUOTE + (":" + QUOTE)), y);
    Assoc(key, QUOTE + (":" + QUOTE), y);
    Assoc(QUOTE, ":" + QUOTE, y);
    Assoc(":", QUOTE, y);
  }

  /** The rest of an object from inside the string value of a member on. */
  function StringMember(y: string): Option<string> {
    match String(y) case None => None case Some(c) => MoreMembers(c)
  }

  lemma KeyedString(key: string, y: string)
    requires Unescaped(key)
    ensures Members((QUOTE + (key + (QUOTE + (":" + QUOTE)))) + y) == StringMember(y)
  {
    KeyOpen(key, y);
    Member(key, QUOTE + y);
    QuotedValue(y);
  }

  /** A name, then a further member whose value is the string at `y`. */
  lemma NextMember(x: string, key: string, y: string)
    requires Unescaped(x)
    requires Unescaped(key)
    ensures StringMember(x + ((QUOTE + ("," + (QUOTE + (key + (QUOTE + (":" + QUOTE)))))) + y)) == StringMember(y)
  {
    var k := QUOTE + (key + (QUOTE + (":" + QUOTE)));
    Assoc(QUOTE, "," + k, y);
    Assoc(",", k, y);
    StringName(x, "," + (k + y));
    CommaMembers(k + y);
    KeyedString(key, y);
  }

  lemma PlainTexts(a: Arg)
    requires Clean(a)
    ensures Unescaped(a.name)
    ensures Unescaped(KindText(a.kind))
    ensures Unescaped("type")
    ensures Unescaped("name")
    ensures Unescaped("value")
  {
  }

  /** A printed argument is one JSON value. */
  lemma ArgValue(a: Arg, r: string)
    requires Clean(a) && ("\n" <= r || ",\n" <= r)
    ensures Value(PrintArg(a) + r) == if EscapesOk(a.value) then Some(r) else None
  {
    var y3 := a.value + (QUOTE + ("}" + r));
    var y2 := a.name + (VALUE_OPEN + y3);
    var y1 := KindText(a.kind) + (NAME_OPEN + y2);
    PlainTexts(a);
    LiteralKeys();
    PrintArgFolds(a, r);
    KindOpen(a.kind);
    Assoc(TYPE_OPEN, KindText(a.kind) + NAME_OPEN, y2);
    Assoc(KindText(a.kind), NAME_OPEN, y2);
    assert PrintArg(a) + r == TYPE_OPEN + y1;
    assert AfterValue("}" + r);
    StringValue(a.value, "}" + r);
    CloseMembers(r);
    NextMember(a.name, "value", y3);
    NextMember(KindText(a.kind), "name", y2);
    KeyedString("type", y1);
    ObjectOpen(QUOTE + ("type" + (QUOTE + (":" + QUOTE))), y1);
  }

  lemma ObjectOpen(k: string, y: string)
    requires QUOTE <= k
    ensures Value("\t" + ("{" + k) + y) == Members(k + y)
  {
    var s := "\t" + ("{" + k) + y;
    Assoc("\t", "{" + k, y);
    Assoc("{", k, y);
    OneWs('\t', "{" + (k + y));
    NoWs("{" + (k + y));
    assert ("{" + (k + y))[1..] == k + y;
    NoWs(k + y);
  }

  lemma {:induction false} WsElements(c: char, s: string)
    requires IsWs(c)
    ensures Elements([c] + s) == Elements(s)
  {
    hide SkipWs, Members, MoreMembers, MoreElements, Number, String;
    OneWs(c, s);
  }

  /** The text from the first argument to the end of the record. */
  function Body(args: seq<Arg>): string {
    Join(PrintArgs(args), ",\n") + RECORD_CLOSE
  }

  predicate AllEscapesOk(args: seq<Arg>) {
    forall a <- args :: EscapesOk(a.value)
  }

  lemma NextElement(r: string)
    ensures MoreElements(",\n" + r) == Elements(r)
  {
    var s := ",\n" + r;
    NoWs(s);
    assert s[1..] == ['\n'] + r;
    WsElements('\n', r);
  }

  lemma BodySplits(args: seq<Arg>)
    requires args != []
    ensures Body(args) == PrintArg(args[0]) + if |args| == 1 then RECORD_CLOSE else ",\n" + Body(args[1..])
  {
    var rest := args[1..];
    assert PrintArgs(args)[1..] == PrintArgs(rest);
    var more := Join(PrintArgs(rest), ",\n");
    Assoc(PrintArg(args[0]) + ",\n", more, RECORD_CLOSE);
    Assoc(PrintArg(args[0]), ",\n", more + RECORD_CLOSE);
  }

  lemma {:induction false} BodyElements(args: seq<Arg>)
    requires args != [] && CleanAll(args)
    ensures Elements(Body(args)) == if AllEscapesOk(args) then Some("}") else None
    decreases |args|
  {
    var a, rest := args[0], args[1..];
    BodySplits(args);
    assert forall b :: b in args <==> b == a || b in rest;
    if rest == [] {
      assert "\n" <= RECORD_CLOSE;
      ArgValue(a, RECORD_CLOSE);
      ClosingElements();
    } else {
      assert ",\n" <= ",\n" + Body(rest);
      ArgValue(a, ",\n" + Body(rest));
      NextElement(Body(rest));
      BodyElements(rest);
    }
  }

  lemma ClosingElements()
    ensures MoreElements(RECORD_CLOSE) == Some("}")
  {
    assert RECORD_CLOSE == ['\n'] + "]}";
    OneWs('\n', "]}");
    NoWs("]}");
    assert "]}"[1..] == "}";
  }

  /** An array, by what is behind its bracket and white space. */
  lemma {:induction false} BracketValue(s: string)
    requires s != "" && s[0] == '['
    ensures var u := SkipWs(s[1..]);
            Value(s) == if u != "" && u[0] == ']' then Some(u[1..]) else Elements(u)
  {
    hide Members, Elements, Number, String, SkipWs;
    NoWs(s);
  }

  lemma {:induction false} ArrayOpens(t: string)
    requires |t| >= 2 && t[0] == '\t' && t[1] == '{'
    ensures Value("[\n" + t) == Elements(t)
  {
    hide Value, Elements, SkipWs;
    var s := "[\n" + t;
    BracketValue(s);
    assert s[1..] == ['\n'] + t;
    OneWs('\n', t);
    var u := t[1..];
    assert t == ['\t'] + u;
    OneWs('\t', u);
    NoWs(u);
    WsElements('\t', u);
  }

  lemma EmptyArray()
    ensures Value("[\n" + RECORD_CLOSE) == Some("}")
  {
    var s := "[\n" + RECORD_CLOSE;
    NoWs(s);
    assert s[1..] == ['\n'] + (['\n'] + "]}");
    OneWs('\n', ['\n'] + "]}");
    OneWs('\n', "]}");
    NoWs("]}");
    assert "]}"[1..] == "}";
  }

  /** The array behind "args". */
  lemma ArgsValue(args: seq<Arg>)
    requires CleanAll(args)
    ensures Value("[\n" + Body(args)) == if AllEscapesOk(args) then Some("}") else None
  {
    if args == [] {
      assert Body(args) == RECORD_CLOSE;
      EmptyArray();
    } else {
      BodyStarts(args);
      ArrayOpens(Body(args));
      BodyElements(args);
    }
  }

  lemma BodyStarts(args: seq<Arg>)
    requires args != []
    ensures |Body(args)| >= 2 && Body(args)[0] == '\t' && Body(args)[1] == '{'
  {
    hide ArgOpen;
    var p := PrintArg(args[0]);
    KindOpen(args[0].kind);
    assert ArgOpen(args[0].kind)[0] == '\t' && ArgOpen(args[0].kind)[1] == '{';
    assert p[0] == ArgOpen(args[0].kind)[0] && p[1] == ArgOpen(args[0].kind)[1];
    assert PrintArgs(args)[0] == p;
    assert Join(PrintArgs(args), ",\n")[..2] == p[..2];
  }

  lemma HeaderOpens(rule: string, b: string)
    ensures Header(rule) + b
         == "{" + ((QUOTE + ("rule" + (QUOTE + (":" + QUOTE)))) + (rule + (QUOTE + ("," + (['\n']
            + (QUOTE + ("args" + (QUOTE + (":" + ("[\n" + b)))))))))) 
  {
    var k := QUOTE + ("rule" + (QUOTE + (":" + QUOTE)));
    assert RULE_OPEN == "{" + k;
    var m := QUOTE + ("args" + (QUOTE + (":" + "[\n")));
    assert ARGS_OPEN == QUOTE + ("," + (['\n'] + m));
    Assoc(RULE_OPEN + rule, ARGS_OPEN, b);
    Assoc(RULE_OPEN, rule, ARGS_OPEN + b);
    Assoc("{", k, rule + (ARGS_OPEN + b));
    Assoc(QUOTE, "," + (['\n'] + m), b);
    Assoc(",", ['\n'] + m, b);
    Assoc(['\n'], m, b);
    Assoc(QUOTE, "args" + (QUOTE + (":" + "[\n")), b);
    Assoc("args", QUOTE + (":" + "[\n"), b);
    Assoc(QUOTE, ":" + "[\n", b);
    Assoc(":", "[\n", b);
  }

  lemma RecordMembers(rule: string, n: string)
    requires CleanName(rule) && QUOTE <= n
    ensures Value("{" + ((QUOTE + ("rule" + (QUOTE + (":" + QUOTE)))) + (rule + (QUOTE + ("," + (['\n'] + n))))))
         == Members(n)
  {
    var y := rule + (QUOTE + ("," + (['\n'] + n)));
    var k := QUOTE + ("rule" + (QUOTE + (":" + QUOTE)));
    var s := "{" + (k + y);
    NoWs(s);
    assert s[1..] == k + y;
    NoWs(k + y);
    KeyedString("rule", y);
    StringName(rule, "," + (['\n'] + n));
    NoWs("," + (['\n'] + n));
    assert ("," + (['\n'] + n))[1..] == ['\n'] + n;
    OneWs('\n', n);
    NoWs(n);
  }

  /** An emitted record is valid JSON exactly when the backslashes of every captured value form
      complete escapes. */
  lemma {:induction false} RecordIsJson(rule: string, args: seq<Arg>)
    requires CleanName(rule) && CleanAll(args)
    ensures IsJson(Record(rule, args)) <==> AllEscapesOk(args)
  {
    var b := Body(args);
    var v := "[\n" + b;
    Assoc(Header(rule), Join(PrintArgs(args), ",\n"), RECORD_CLOSE);
    HeaderOpens(rule, b);
    RecordMembers(rule, QUOTE + ("args" + (QUOTE + (":" + v))));
    Member("args", v);
    ArgsValue(args);
    assert "}" + "" == "}";
    CloseMembers("");
  }

  /** In particular when no captured value contains a backslash. */
  lemma RecordWithoutBackslashIsJson(rule: string, args: seq<Arg>)
    requires CleanName(rule) && CleanAll(args) && forall a <- args :: Free(a.value, '\\')
    ensures IsJson(Record(rule, args))
  {
    forall a <- args ensures EscapesOk(a.value) { NoBackslash(a.value); }
    RecordIsJson(rule, args);
  }
}
