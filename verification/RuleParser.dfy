/** The two-cursor loop that matches one rule against one log line and prints the record. */
module RuleParser {
  import opened CStrings
  import opened CBuffers
  import opened Dates
  import opened Templates
  import opened Records

  // ----- what a rule produces

  /** The record of a match, unless it would fill the message buffer. */
  function Recorded(name: string, matched: Option<seq<Arg>>): Option<string> {
    match matched
    case None => None
    case Some(args) => if |Record(name, args)| < MSG_MAX_SIZE then Some(Record(name, args)) else None
  }

  /** The record a rule line produces for a log line. */
  function Sendable(line: string, m: string): Option<string> {
    var n := Span(line, IsNameChar);
    if At(line, n) != '|' then None else Recorded(line[..n], MatchText(line[n + 1..], m))
  }

  /** A rule line is a name of capital letters, digits and underscores, a bar, and a template; it yields the record
      of the arguments that the template captures, when that record has at most 1023 characters. */
  lemma RuleLine(name: string, t: string, m: string)
    requires forall k :: 0 <= k < |name| ==>
               65 <= name[k] as int <= 90 || 48 <= name[k] as int <= 57 || name[k] as int == 95
    ensures MatchText(t, m).None? ==> Sendable(name + "|" + t, m) == None
    ensures MatchText(t, m).Some? && |Record(name, MatchText(t, m).value)| >= 1024 ==>
              Sendable(name + "|" + t, m) == None
    ensures MatchText(t, m).Some? && |Record(name, MatchText(t, m).value)| <= 1023 ==>
              Sendable(name + "|" + t, m) == Some(Record(name, MatchText(t, m).value))
  {
    hide MatchText, Record;
    var line := name + "|" + t;
    assert line[..|name|] == name && line[|name|] == '|' && line[|name| + 1..] == t;
    SpanIs(line, IsNameChar, |name|);
  }

  /** A line with any other character in its name, or without a bar, is no rule. */
  lemma OtherLinesFail(name: string, rest: string, m: string)
    requires forall k :: 0 <= k < |name| ==>
               65 <= name[k] as int <= 90 || 48 <= name[k] as int <= 57 || name[k] as int == 95
    requires rest != "" ==> rest[0] != '|'
    requires rest != "" ==> !(65 <= rest[0] as int <= 90 || 48 <= rest[0] as int <= 57 || rest[0] as int == 95)
    ensures Sendable(name + rest, m) == None
  {
    SpanIs(name + rest, IsNameChar, |name|);
  }

  // ----- what the loop has printed so far

  /** Every argument with the comma and newline that the printer puts behind it. */
  function Printed(args: seq<Arg>): string {
    if args == [] then "" else PrintArg(args[0]) + ",\n" + Printed(args[1..])
  }

  lemma {:induction false} PrintedConcat(a: seq<Arg>, b: seq<Arg>)
    ensures Printed(a + b) == Printed(a) + Printed(b)
    decreases |a|
  {
    if a == [] {
      assert a + b == b;
    } else {
      assert (a + b)[1..] == a[1..] + b;
      PrintedConcat(a[1..], b);
    }
  }

  lemma {:induction false} PrintedJoin(args: seq<Arg>)
    requires args != []
    ensures Printed(args) == Join(PrintArgs(args), ",\n") + ",\n"
    decreases |args|
  {
    assert PrintArgs(args)[1..] == PrintArgs(args[1..]);
    if |args| == 1 {
      assert Printed(args[1..]) == "";
    } else {
      PrintedJoin(args[1..]);
    }
  }

  /** Dropping the last comma, when there is one, turns the printed text into the record. */
  lemma PrintedIsRecord(rule: string, args: seq<Arg>)
    ensures var json := Header(rule) + Printed(args);
            |json| >= 2 && (json[|json| - 2] == ',' <==> args != []) &&
            Record(rule, args) == (if args != [] then json[..|json| - 2] else json) + RECORD_CLOSE
  {
    var h := Header(rule);
    if args == [] {
      assert h + "" == h;
      assert h[|h| - 2] == ARGS_OPEN[|ARGS_OPEN| - 2];
    } else {
      PrintedJoin(args);
      var j := Join(PrintArgs(args), ",\n");
      var json := h + Printed(args);
      assert json == h + j + ",\n";
      assert json[..|json| - 2] == h + j;
    }
  }

  /** The loop looks at the length only between tokens; no later token makes the record shorter. */
  lemma LongStaysLong(rule: string, done: seq<Arg>, more: seq<Arg>)
    requires |Header(rule) + Printed(done)| >= MSG_MAX_SIZE
    ensures |Record(rule, done + more)| >= MSG_MAX_SIZE
  {
    PrintedConcat(done, more);
    PrintedIsRecord(rule, done + more);
  }

  // ----- the cursors

  /** `rule` holds a line and perhaps text read ahead behind its newline; `bound` ends the line. */
  predicate LineEnds(rule: string, bound: nat) {
    bound == Find(rule, '\n') && bound <= |rule|
  }

  /** One token of a template used up on a line: its length in the template, and what it took. */
  datatype Move = Move(length: nat, taken: Taken)

  /** The move that the first token of the template `t` makes on the line `m`, if it can. */
  function MoveOf(t: string, m: string): Option<Move>
    requires t != ""
  {
    match NextToken(t)
    case None => None
    case Some(l) =>
      match Take(l.token, m)
      case None => None
      case Some(taken) => Some(Move(l.length, taken))
  }

  /** From a backslash at `start`, the helpers below make the move of the token there, or fail when it has
      none; on success the rule cursor `end` rests on the last character of the token. */
  predicate Made(move: Option<Move>, start: nat, parserAt: nat, json: string,
                 ok: bool, end: nat, at: nat, printed: string)
  {
    match move
    case None => !ok
    case Some(s) =>
      ok && start < end && end + 1 == start + s.length && at == parserAt + s.taken.length &&
      printed == json + Printed(s.taken.args)
  }

  lemma AnonymousInLine(rule: string, bound: nat, i: nat)
    requires LineEnds(rule, bound) && i <= bound
    ensures ANONYMOUS <= rule[i..] <==> ANONYMOUS <= rule[..bound][i..]
  {
    var a, b := rule[i..], rule[..bound][i..];
    assert b <= a;
    assert |b| < |a| ==> a[|b|] == rule[bound] == '\n';
    if ANONYMOUS <= a {
      assert a[0] == ':' && a[1] == '"' && a[2] == '_' && a[3] == '"';
      assert a[..4] == b[..4];
    }
  }

  lemma SliceInLine(s: string, bound: nat, at: nat, len: nat)
    requires at + len <= bound <= |s|
    ensures s[..bound][at..][..len] == s[at..at + len]
  {
  }

  /** The name behind a parameter letter: `:"_"`, or `:"` name `"`. */
  method ScanName(rule: string, bound: nat, i: nat) returns (r: Option<(Option<string>, nat)>)
    requires LineEnds(rule, bound) && i <= bound
    ensures r == LexName(rule[..bound][i..])
  {
    hide Find;
    ghost var body := rule[..bound][i..];
    AnonymousInLine(rule, bound, i);
    if ANONYMOUS <= rule[i..] {
      return Some((None, 4));
    }
    if At(rule, i) != ':' || At(rule, i + 1) != '"' {
      return None;
    }
    assert i + 2 <= bound && At(body, 0) == ':' && At(body, 1) == '"';
    ghost var behind := rule[..bound][i + 2..];
    assert body[2..] == behind;
    var len := 0;
    while IsNameChar(At(rule, i + 2 + len))
      invariant i + 2 + len <= bound
      invariant forall k :: 0 <= k < len ==> IsNameChar(behind[k])
      decreases bound - len
    {
      len := len + 1;
    }
    SpanIs(behind, IsNameChar, len);
    assert At(body, 2 + len) == At(rule[..bound], i + 2 + len);
    if At(rule, i + 2 + len) != '"' {
      return None;
    }
    var name := rule[i + 2..i + 2 + len];
    SliceInLine(rule, bound, i + 2, len);
    return Some((Some(name), len + 3));
  }

  method ScanDigits(message: string, at: nat) returns (len: nat)
    requires at <= |message| && Free(message, '\0')
    ensures len == Span(message[at..], IsDigit)
  {
    len := 0;
    while IsDigit(At(message, at + len))
      invariant at + len <= |message|
      invariant forall k :: 0 <= k < len ==> IsDigit(message[at..][k])
      decreases |message| - len
    {
      len := len + 1;
    }
    SpanIs(message[at..], IsDigit, len);
  }

  /** Visible characters and blanks, up to the delimiter or a quote. */
  method ScanText(message: string, at: nat, delimiter: char) returns (len: nat)
    requires at <= |message| && Free(message, '\0')
    ensures len == TextLength(message[at..], delimiter)
    ensures at + len <= |message|
    ensures forall k :: at <= k < at + len ==>
              32 <= message[k] as int <= 126 && message[k] as int != 34 && message[k] != delimiter
    ensures at + len < |message| ==>
              var c := message[at + len]; c == delimiter || c as int == 34 || c as int < 32 || c as int > 126
  {
    len := 0;
    while At(message, at + len) != delimiter && At(message, at + len) != '"' && ' ' <= At(message, at + len) <= '~'
      invariant at + len <= |message|
      invariant forall k :: 0 <= k < len ==> InText(message[at..][k], delimiter)
      decreases |message| - len
    {
      len := len + 1;
    }
    SpanIs(message[at..], c => InText(c, delimiter), len);
  }

  /** `hh:mm:ss` at `at`, giving up at the first column that does not fit. */
  method ScanClock(message: string, at: nat) returns (r: Option<Clock>, end: nat)
    requires at <= |message|
    ensures r == ReadClock(message[at..])
    ensures r.Some? ==> end == at + 8
  {
    ghost var m := message[at..];
    assert forall k: nat :: At(message, at + k) == At(m, k);
    end := at;
    if !TwoDigitsAt(message, end) || At(message, end + 2) != ':' { return None, end; }
    var hour := DigitValue(At(message, end)) * 10 + DigitValue(At(message, end + 1));
    end := end + 3;
    if !TwoDigitsAt(message, end) || At(message, end + 2) != ':' { return None, end; }
    var minutes := DigitValue(At(message, end)) * 10 + DigitValue(At(message, end + 1));
    end := end + 3;
    if !TwoDigitsAt(message, end) { return None, end; }
    var seconds := DigitValue(At(message, end)) * 10 + DigitValue(At(message, end + 1));
    end := end + 2;
    r := Some(Clock(hour, minutes, seconds));
  }

  /** A whole timestamp at `at`. */
  method ScanDate(message: string, at: nat) returns (r: Option<Stamp>, end: nat)
    requires at <= |message|
    ensures r == ReadDate(message[at..])
    ensures r.Some? ==> end == at + 15
  {
    ghost var m := message[at..];
    assert At(message, at + 3) == At(m, 3) && At(message, at + 6) == At(m, 6);
    end := at;
    var month := MonthOf(message[at..]);
    if month == 0 || At(message, at + 3) != ' ' { return None, end; }
    end := at + 4;
    assert message[end..] == m[4..];
    var day := Atoi(message[end..]);
    if day < 0 || day > 31 { return None, end; }
    end := end + 2;
    if At(message, end) != ' ' { return None, end; }
    end := end + 1;
    assert message[end..] == m[7..];
    var clock;
    clock, end := ScanClock(message, end);
    if clock.None? { return None, end; }
    r := Some(Stamp(month, day, clock.value.hour, clock.value.minute, clock.value.second));
  }

  // ----- the three parameters, from the letter behind the backslash

  /** What a parameter adds to the printed text. */
  lemma PrintedOne(kind: Kind, name: string, value: string)
    ensures Printed(Captured(kind, Some(name), value)) == ArgOpen(kind) + name + VALUE_OPEN + value + ARG_CLOSE
  {
    var args := Captured(kind, Some(name), value);
    var a := ArgOpen(kind) + name + VALUE_OPEN + value;
    assert args[1..] == [];
    NoTail(PrintArg(args[0]) + ",\n");
    Assoc(a, "\"}", ",\n");
    assert "\"}" + ",\n" == ARG_CLOSE;
  }

  lemma PrintedNone(json: string)
    ensures json + Printed([]) == json
  {
  }

  method NumberParam(rule: string, bound: nat, i: nat, message: string, parserAt: nat, json: string)
    returns (ok: bool, end: nat, at: nat, printed: string)
    requires LineEnds(rule, bound) && 1 <= i < bound && rule[i - 1] == '\\' && rule[i] == 'n'
    requires parserAt <= |message| && Free(message, '\0')
    ensures Made(MoveOf(rule[..bound][i - 1..], message[parserAt..]), i - 1, parserAt, json, ok, end, at, printed)
  {
    hide LexName, Printed;
    ghost var t, m := rule[..bound][i - 1..], message[parserAt..];
    assert t[2..] == rule[..bound][i + 1..];
    ok, end, at, printed := false, i, parserAt, json;
    var name := ScanName(rule, bound, i + 1);
    if name.None? { return; }
    var len := ScanDigits(message, parserAt);
    if len == 0 { return; }
    var value := message[parserAt..parserAt + len];
    assert value == m[..len];
    ok, end, at := true, i + name.value.1, parserAt + len;
    match name.value.0
    case None =>
      PrintedNone(json);
    case Some(n) =>
      PrintedOne(Number, n, value);
      printed := json + (ArgOpen(Number) + n + VALUE_OPEN + value + ARG_CLOSE);
  }

  method DateParam(rule: string, bound: nat, i: nat, message: string, parserAt: nat, json: string)
    returns (ok: bool, end: nat, at: nat, printed: string)
    requires LineEnds(rule, bound) && 1 <= i < bound && rule[i - 1] == '\\' && rule[i] == 'd'
    requires parserAt <= |message| && Free(message, '\0')
    ensures Made(MoveOf(rule[..bound][i - 1..], message[parserAt..]), i - 1, parserAt, json, ok, end, at, printed)
  {
    hide PrintDate, ReadDate, LexName, Printed;
    ghost var t, m := rule[..bound][i - 1..], message[parserAt..];
    assert t[2..] == rule[..bound][i + 1..];
    ok, end, at, printed := false, i, parserAt, json;
    var name := ScanName(rule, bound, i + 1);
    if name.None? { return; }
    var stamp, last := ScanDate(message, parserAt);
    if stamp.None? { return; }
    ok, end, at := true, i + name.value.1, last;
    match name.value.0
    case None =>
      PrintedNone(json);
    case Some(n) =>
      PrintedOne(Date, n, PrintDate(stamp.value));
      printed := json + (ArgOpen(Date) + n + VALUE_OPEN + PrintDate(stamp.value) + ARG_CLOSE);
  }

  /** Outside the line both a newline and a NUL stop a capture, as any control character does. */
  lemma DelimiterInLine(m: string, c: char, d: char)
    requires SameStop(c, d)
    ensures TextLength(m, c) == TextLength(m, d)
  {
    SpanIs(m, x => InText(x, d), TextLength(m, c));
  }

  predicate SameStop(c: char, d: char) {
    c == d || (c < ' ' && d < ' ')
  }

  /** The character that stops a capture: the one at `look`, or the one behind it when that is escaped. */
  method ScanDelimiter(rule: string, bound: nat, behind: nat, look: nat, ghost name: Option<string>, ghost length: nat)
    returns (delimiter: Option<char>)
    requires LineEnds(rule, bound) && behind <= bound && look <= bound
    requires if name.None? then At(rule, look) == ':' else look == behind
    ensures var l := LexText(name, rule[..bound][behind..], length);
            if delimiter.None? then l.None?
            else l.Some? && l.value.token.TextParam? && SameStop(delimiter.value, l.value.token.delimiter)
  {
    ghost var rest := rule[..bound][behind..];
    assert forall k :: 0 <= k < |rest| ==> rest[k] == rule[behind + k];
    if At(rule, look) == '\\' {
      assert At(rest, 0) == '\\';
      if IsParamLetter(At(rule, look + 1)) { return None; }
      delimiter := Some(At(rule, look + 1));
    } else {
      delimiter := Some(At(rule, look));
    }
  }

  /** The move of a string parameter at the front of `t`. */
  lemma TextMoves(t: string, m: string)
    requires |t| >= 2 && t[0] == '\\' && t[1] == 's'
    ensures match LexName(t[2..])
            case None => MoveOf(t, m) == None
            case Some((name, n)) =>
              match LexText(name, t[2 + n..], 2 + n)
              case None => MoveOf(t, m) == None
              case Some(l) =>
                l.token.TextParam? && l.length == 2 + n &&
                var len := TextLength(m, l.token.delimiter);
                MoveOf(t, m) == if len == 0 then None else Some(Move(2 + n, Taken(len, Captured(Text, name, m[..len]))))
  {
    hide LexName, TextLength;
  }

  method TextParam(rule: string, bound: nat, i: nat, message: string, parserAt: nat, json: string)
    returns (ok: bool, end: nat, at: nat, printed: string)
    requires LineEnds(rule, bound) && 1 <= i < bound && rule[i - 1] == '\\' && rule[i] == 's'
    requires parserAt <= |message| && Free(message, '\0')
    ensures Made(MoveOf(rule[..bound][i - 1..], message[parserAt..]), i - 1, parserAt, json, ok, end, at, printed)
  {
    hide LexName, LexText, Printed, TextLength, SameStop, MoveOf, Find;
    ghost var line := rule[..bound];
    ghost var t, m := line[i - 1..], message[parserAt..];
    TextMoves(t, m);
    assert t[2..] == line[i + 1..];
    ok, end, at, printed := false, i, parserAt, json;
    var name := ScanName(rule, bound, i + 1);
    if name.None? { return; }
    end := i + name.value.1;
    // with a name the cursor is behind it; for "_" it still stands on the colon in front of the name
    var look := if name.value.0.None? then i + 1 else end + 1;
    assert t[2 + name.value.1..] == line[end + 1..];
    var delimiter := ScanDelimiter(rule, bound, end + 1, look, name.value.0, 2 + name.value.1);
    if delimiter.None? { return; }
    var len := ScanText(message, parserAt, delimiter.value);
    DelimiterInLine(m, delimiter.value,
                    LexText(name.value.0, line[end + 1..], 2 + name.value.1).value.token.delimiter);
    if len == 0 { return; }
    var value := message[parserAt..parserAt + len];
    assert value == m[..len];
    ok, at := true, parserAt + len;
    match name.value.0
    case None =>
      PrintedNone(json);
    case Some(n) =>
      PrintedOne(Text, n, value);
      printed := json + (ArgOpen(Text) + n + VALUE_OPEN + value + ARG_CLOSE);
  }

  // ----- the loop

  /** What is left to match when the template cursor is at `start` and the line cursor at `at`. */
  ghost function Left(rule: string, bound: nat, message: string, start: nat, at: nat): Option<seq<Arg>>
    requires start <= bound <= |rule| && at <= |message|
  {
    MatchText(rule[..bound][start..], message[at..])
  }

  lemma LeftStep(rule: string, bound: nat, message: string, start: nat, at: nat)
    requires start < bound <= |rule| && at < |message| && message[at] != '\n'
    ensures var left := Left(rule, bound, message, start, at);
            match MoveOf(rule[..bound][start..], message[at..])
            case None => left.None?
            case Some(s) =>
              start + s.length <= bound && at + s.taken.length <= |message| &&
              left == Prepend(s.taken.args, Left(rule, bound, message, start + s.length, at + s.taken.length))
  {
    var move := MoveOf(rule[..bound][start..], message[at..]);
    if move.Some? {
      var end, taken := start + move.value.length, move.value.taken;
      assert rule[..bound][start..][end - start..] == rule[..bound][end..];
      assert message[at..][taken.length..] == message[at + taken.length..];
    }
  }

  lemma LeftAll(rule: string, bound: nat, message: string, start: nat)
    requires start <= bound <= |rule|
    ensures Left(rule, bound, message, start, 0) == MatchText(rule[..bound][start..], message)
  {
    assert message[0..] == message;
  }

  lemma PrependTwice(a: seq<Arg>, b: seq<Arg>, r: Option<seq<Arg>>)
    ensures Prepend(a, Prepend(b, r)) == Prepend(a + b, r)
  {
    if r.Some? { assert a + (b + r.value) == a + b + r.value; }
  }

  lemma {:induction false} BlanksMove(t: string, m: string)
    requires |t| >= 2 && t[0] == '\\' && t[1] == ' '
    ensures MoveOf(t, m) == Some(Move(2 + Span(t[2..], IsPlainBlank), Taken(Span(m, IsBlank), [])))
  {
    hide LexParam;
  }

  method SkipBlanks(message: string, at: nat) returns (end: nat)
    requires at <= |message| && Free(message, '\0')
    ensures end == at + Span(message[at..], IsBlank)
  {
    end := at;
    while IsBlank(At(message, end))
      invariant at <= end <= |message|
      invariant forall k :: 0 <= k < end - at ==> IsBlank(message[at..][k])
      decreases |message| - end
    {
      end := end + 1;
    }
    SpanIs(message[at..], IsBlank, end - at);
  }

  /** From an escaped blank at `i` to the last of the blanks that follow it. */
  method SkipSpaces(rule: string, bound: nat, i: nat) returns (end: nat)
    requires LineEnds(rule, bound) && i < bound
    ensures end == i + Span(rule[..bound][i + 1..], IsPlainBlank)
  {
    hide Find;
    ghost var behind := rule[..bound][i + 1..];
    end := i;
    while At(rule, end + 1) == ' '
      invariant i <= end < bound
      invariant forall k :: 0 <= k < end - i ==> behind[k] == ' '
      decreases bound - end
    {
      end := end + 1;
    }
    SpanIs(behind, IsPlainBlank, end - i);
  }

  /** Escaped blanks: any run of blanks and tabs on the line, any run of blanks in the template. */
  method EscapedBlanks(rule: string, bound: nat, i: nat, message: string, parserAt: nat)
    returns (end: nat, at: nat)
    requires LineEnds(rule, bound) && 1 <= i < bound && rule[i - 1] == '\\' && rule[i] == ' '
    requires parserAt <= |message| && Free(message, '\0')
    ensures i <= end && parserAt <= at
    ensures MoveOf(rule[..bound][i - 1..], message[parserAt..]) == Some(Move(end + 2 - i, Taken(at - parserAt, [])))
  {
    hide MoveOf, Span, Find;
    BlanksMove(rule[..bound][i - 1..], message[parserAt..]);
    assert rule[..bound][i - 1..][2..] == rule[..bound][i + 1..];
    at := SkipBlanks(message, parserAt);
    end := SkipSpaces(rule, bound, i);
  }

  /** The `switch` on the character behind a backslash. */
  method Escaped(rule: string, bound: nat, i: nat, message: string, parserAt: nat, json: string)
    returns (ok: bool, end: nat, at: nat, printed: string)
    requires LineEnds(rule, bound) && Free(rule, '\0') && 1 <= i <= bound && rule[i - 1] == '\\'
    requires parserAt < |message| && Free(message, '\0')
    ensures Made(MoveOf(rule[..bound][i - 1..], message[parserAt..]), i - 1, parserAt, json, ok, end, at, printed)
  {
    ghost var t := rule[..bound][i - 1..];
    NoTail(json);
    ok, end, at, printed := false, i, parserAt, json;
    if At(rule, i) == '\0' || At(rule, i) == '\n' {
      return;
    }
    if rule[i] == 'n' {
      ok, end, at, printed := NumberParam(rule, bound, i, message, parserAt, json);
    } else if rule[i] == 's' {
      ok, end, at, printed := TextParam(rule, bound, i, message, parserAt, json);
    } else if rule[i] == 'd' {
      ok, end, at, printed := DateParam(rule, bound, i, message, parserAt, json);
    } else if rule[i] == ' ' {
      end, at := EscapedBlanks(rule, bound, i, message, parserAt);
      ok := true;
    } else if message[parserAt] == rule[i] {
      ok, at := true, parserAt + 1;
    }
  }

  /** Both cursors at the end: the last comma goes and the record is closed. */
  method CloseRecord(ghost name: string, ghost args: seq<Arg>, json: string) returns (record: string)
    requires json == Header(name) + Printed(args)
    ensures record == Record(name, args)
  {
    hide Header, Record, Printed;
    PrintedIsRecord(name, args);
    record := json;
    if record[|record| - 2] == ',' {
      record := record[..|record| - 2];
    }
    record := record + RECORD_CLOSE;
  }

  /** One unescaped step of the template: an ordinary character, compared with the line. */
  lemma LiteralStep(rule: string, bound: nat, message: string, i: nat, at: nat)
    requires i < bound <= |rule| && at < |message| && message[at] != '\n' && rule[i] != '\\'
    ensures message[at] == rule[i] ==>
              Left(rule, bound, message, i, at) == Left(rule, bound, message, i + 1, at + 1)
    ensures message[at] != rule[i] ==> Left(rule, bound, message, i, at).None?
  {
    var t, m := rule[..bound][i..], message[at..];
    if message[at] == rule[i] {
      assert NextToken(t) == Some(Lexed(Literal(t[0]), 1));
      LeftStep(rule, bound, message, i, at);
      assert forall r: seq<Arg> :: [] + r == r;
    }
  }

  /** The characters in front of the bar. */
  method ScanRuleName(rule: string, bound: nat) returns (len: nat)
    requires LineEnds(rule, bound)
    ensures len == Span(rule[..bound], IsNameChar) && len <= bound
  {
    len := 0;
    while IsNameChar(At(rule, len))
      invariant len <= bound
      invariant forall k :: 0 <= k < len ==> IsNameChar(rule[..bound][k])
      decreases bound - len
    {
      len := len + 1;
    }
    SpanIs(rule[..bound], IsNameChar, len);
  }

  /** What holds between two turns of the loop: the arguments printed so far, put in front of what is
      left to match, are what the whole template matches. */
  ghost predicate Running(rule: string, bound: nat, message: string, name: string, all: Option<seq<Arg>>,
                          i: nat, parserAt: nat, json: string, done: seq<Arg>)
    requires i <= bound <= |rule| && parserAt <= |message|
  {
    json == Header(name) + Printed(done) && all == Prepend(done, Left(rule, bound, message, i, parserAt))
  }

  lemma RunningStep(rule: string, bound: nat, message: string, name: string, all: Option<seq<Arg>>,
                    start: nat, parserAt: nat, json: string, done: seq<Arg>)
    requires start < bound <= |rule| && parserAt < |message| && message[parserAt] != '\n'
    requires Running(rule, bound, message, name, all, start, parserAt, json, done)
    ensures match MoveOf(rule[..bound][start..], message[parserAt..])
            case None => all.None?
            case Some(s) =>
              start + s.length <= bound && parserAt + s.taken.length <= |message| &&
              Running(rule, bound, message, name, all, start + s.length, parserAt + s.taken.length,
                      json + Printed(s.taken.args), done + s.taken.args)
  {
    hide Left, MoveOf, Header, Printed;
    LeftStep(rule, bound, message, start, parserAt);
    var move := MoveOf(rule[..bound][start..], message[parserAt..]);
    if move.Some? {
      var end, taken := start + move.value.length, move.value.taken;
      PrependTwice(done, taken.args, Left(rule, bound, message, end, parserAt + taken.length));
      PrintedConcat(done, taken.args);
      Assoc(Header(name), Printed(done), Printed(taken.args));
    }
  }

  lemma RunningLiteral(rule: string, bound: nat, message: string, name: string, all: Option<seq<Arg>>,
                       i: nat, parserAt: nat, json: string, done: seq<Arg>)
    requires i < bound <= |rule| && parserAt < |message| && message[parserAt] != '\n' && rule[i] != '\\'
    requires Running(rule, bound, message, name, all, i, parserAt, json, done)
    ensures message[parserAt] == rule[i] ==> Running(rule, bound, message, name, all, i + 1, parserAt + 1, json, done)
    ensures message[parserAt] != rule[i] ==> all.None?
  {
    LiteralStep(rule, bound, message, i, parserAt);
  }

  lemma RunningStops(rule: string, bound: nat, message: string, name: string, all: Option<seq<Arg>>,
                     i: nat, parserAt: nat, json: string, done: seq<Arg>)
    requires i <= bound <= |rule| && parserAt <= |message|
    requires Running(rule, bound, message, name, all, i, parserAt, json, done)
    ensures json == Header(name) + Printed(done)
    ensures i == bound && Ended(message[parserAt..]) ==> all == Some(done)
    ensures i == bound && !Ended(message[parserAt..]) ==> all.None?
    ensures i < bound && Ended(message[parserAt..]) ==> all.None?
    ensures |json| >= MSG_MAX_SIZE ==> Recorded(name, all) == None
  {
    assert done + [] == done;
    if i == bound { assert rule[..bound][i..] == ""; }
    var left := Left(rule, bound, message, i, parserAt);
    if left.Some? && |json| >= MSG_MAX_SIZE { LongStaysLong(name, done, left.value); }
  }

  lemma RecordedIs(name: string, args: seq<Arg>)
    ensures |Record(name, args)| < MSG_MAX_SIZE ==> Recorded(name, Some(args)) == Some(Record(name, args))
    ensures |Record(name, args)| >= MSG_MAX_SIZE ==> Recorded(name, Some(args)) == None
    ensures Recorded(name, None) == None
  {
  }

  lemma RunningStarts(rule: string, bound: nat, len: nat, message: string, json: string)
    requires len < bound <= |rule| && json == RULE_OPEN + rule[..len] + ARGS_OPEN
    ensures Running(rule, bound, message, rule[..len], MatchText(rule[..bound][len + 1..], message),
                    len + 1, 0, json, [])
  {
    LeftAll(rule, bound, message, len + 1);
    NoTail(json);
    assert forall r: seq<Arg> :: [] + r == r;
  }

  /** The template behind the bar, against the line.  Both buffers may hold text read ahead behind the
      newline: `rule` its line and more, `message` a log line and more. */
  method RunTemplate(rule: string, bound: nat, len: nat, message: string) returns (couldParse: bool, json: string)
    requires LineEnds(rule, bound) && len < bound && Free(rule, '\0') && Free(message, '\0')
    ensures couldParse ==> Some(json) == Recorded(rule[..len], MatchText(rule[..bound][len + 1..], message))
    ensures !couldParse ==> Recorded(rule[..len], MatchText(rule[..bound][len + 1..], message)) == None
  {
    hide Left, MatchText, Running, MoveOf, Header, Record, Printed, Recorded;
    ghost var name := rule[..len];
    ghost var all := MatchText(rule[..bound][len + 1..], message);
    json := RULE_OPEN + rule[..len] + ARGS_OPEN;
    RunningStarts(rule, bound, len, message, json);
    var i: nat, parserAt: nat, escaped := len + 1, 0, false;
    ghost var done: seq<Arg> := [];
    couldParse := false;
    while i <= bound && |json| < MSG_MAX_SIZE
      invariant len + 1 <= i <= bound && parserAt <= |message|
      invariant escaped ==> len + 1 < i && rule[i - 1] == '\\' && parserAt < |message| && message[parserAt] != '\n'
      invariant Running(rule, bound, message, name, all, if escaped then i - 1 else i, parserAt, json, done)
      decreases bound - i
    {
      if escaped {
        ghost var move := MoveOf(rule[..bound][i - 1..], message[parserAt..]);
        var ok, end, at, printed := Escaped(rule, bound, i, message, parserAt, json);
        RunningStep(rule, bound, message, name, all, i - 1, parserAt, json, done);
        if !ok {
          RecordedIs(name, []);
          return false, json;
        }
        done := done + move.value.taken.args;
        i, parserAt, json, escaped := end, at, printed, false;
      } else {
        var ruleEnds := At(rule, i) == '\0' || At(rule, i) == '\n';
        var messageEnds := At(message, parserAt) == '\n' || At(message, parserAt) == '\0';
        assert messageEnds == Ended(message[parserAt..]);
        RunningStops(rule, bound, message, name, all, i, parserAt, json, done);
        RecordedIs(name, []);
        if ruleEnds && messageEnds {
          json := CloseRecord(name, done, json);
          RecordedIs(name, done);
          couldParse := true;
          break;
        } else if ruleEnds || messageEnds {
          return false, json;
        }
        if rule[i] == '\\' {
          escaped := true;
        } else {
          RunningLiteral(rule, bound, message, name, all, i, parserAt, json, done);
          if message[parserAt] != rule[i] {
            return false, json;
          }
          parserAt := parserAt + 1;
        }
      }
      i := i + 1;
    }
    if |json| >= MSG_MAX_SIZE {
      if !couldParse {
        RunningStops(rule, bound, message, name, all, if escaped then i - 1 else i, parserAt, json, done);
      }
      couldParse := false;
    }
  }

  /** The whole attempt at one rule: it produces exactly the record of the declarative matcher, when that
      is short enough to be sent. */
  method ParseRule(rule: string, message: string) returns (couldParse: bool, json: string)
    requires Free(rule, '\0') && Free(message, '\0')
    ensures couldParse ==> Sendable(rule[..Find(rule, '\n')], message) == Some(json)
    ensures !couldParse ==> Sendable(rule[..Find(rule, '\n')], message) == None
  {
    var bound := Find(rule, '\n');
    var len := ScanRuleName(rule, bound);
    assert rule[..bound][..len] == rule[..len];
    if At(rule, len) != '|' {
      return false, "";
    }
    couldParse, json := RunTemplate(rule, bound, len, message);
  }
}
