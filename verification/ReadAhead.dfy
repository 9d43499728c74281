/** What text read ahead behind a log line can do to the parsing of that line. */
module ReadAhead {
  import opened CStrings
  import opened CBuffers
  import opened Dates
  import opened Templates
  import opened TemplateTexts
  import opened Records
  import opened RuleParser

  /** A blank at `k` with `hh:mm:ss` behind it. */
  predicate ClockAt(s: string, k: nat) {
    k < |s| && s[k] == ' ' && ReadClock(s[k + 1..]).Some?
  }

  /** The two day columns of a timestamp are the only ones a newline can take.  The line then ends inside
      the day, and the text read ahead goes on with the rest of a timestamp. */
  predicate ReadsOn(ahead: string) {
    ClockAt(ahead, 0) || (ClockAt(ahead, 1) && 0 <= Atoi(ahead) <= 31)
  }

  // ----- text that goes on like anything else is never looked at

  lemma AtoiOverNewline(s: string)
    ensures Atoi("\n" + s) == Atoi(s)
  {
    hide SignedValue;
    var p := Span(s, IsSpace);
    assert ("\n" + s)[1..] == s;
    assert ("\n" + s)[p + 1..] == s[p..];
  }

  lemma MonthHasNoNewline(s: string, k: nat)
    requires MonthOf(s) != 0 && k < 3
    ensures k < |s| && s[k] != '\n'
  {
  }

  /** The columns of a timestamp that a newline cannot take. */
  lemma NewlineColumn(s: string, k: nat)
    requires ReadDate(s).Some? && k < 15 && s[k] == '\n'
    ensures k == 4 || k == 5
  {
    hide Atoi, MonthOf;
    if k < 3 { MonthHasNoNewline(s, k); }
    assert forall j: nat :: j < 8 ==> At(s[7..], j) == s[7 + j];
  }

  lemma DateOfLine(line: string, ahead: string)
    requires Free(line, '\n') && !ReadsOn(ahead)
    ensures ReadDate(line + "\n" + ahead) == ReadDate(line)
  {
    hide ReadDate, Atoi;
    var s := line + "\n" + ahead;
    if |line| >= 15 {
      DateLocal(s);
      DateLocal(line);
      assert s[..15] == line[..15];
    } else if ReadDate(s).Some? {
      assert s[|line|] == '\n';
      NewlineColumn(s, |line|);
      DateReadsOn(line, ahead);
    }
  }

  lemma DateReadsOn(line: string, ahead: string)
    requires |line| == 4 || |line| == 5
    requires ReadDate(line + "\n" + ahead).Some?
    ensures ReadsOn(ahead)
  {
    hide Atoi, MonthOf, ReadClock;
    var s := line + "\n" + ahead;
    assert s[6] == ' ' && ReadClock(s[7..]).Some?;
    if |line| == 5 {
      assert s[7..] == ahead[1..] && s[6] == ahead[0];
    } else {
      assert s[7..] == ahead[2..] && s[6] == ahead[1];
      assert s[4..] == "\n" + ahead;
      AtoiOverNewline(ahead);
    }
  }

  lemma SpanOfLine(line: string, ahead: string, p: char -> bool)
    requires !p('\n')
    ensures Span(line + "\n" + ahead, p) == Span(line, p)
  {
    var s, n := line + "\n" + ahead, Span(line, p);
    assert s[|line|] == '\n';
    SpanIs(s, p, n);
  }

  lemma TakeOfLine(tok: Token, line: string, ahead: string)
    requires line != "" && Free(line, '\n') && !ReadsOn(ahead)
    ensures Take(tok, line + "\n" + ahead) == Take(tok, line)
  {
    hide ReadDate, PrintDate, ReadsOn, Span;
    var s := line + "\n" + ahead;
    assert forall n :: 0 <= n <= |line| ==> s[..n] == line[..n];
    match tok
    case Literal(_) =>
    case Blanks => SpanOfLine(line, ahead, IsBlank);
    case NumberParam(_) => SpanOfLine(line, ahead, IsDigit);
    case TextParam(_, delimiter) => SpanOfLine(line, ahead, c => InText(c, delimiter));
    case DateParam(_) => DateOfLine(line, ahead);
  }

  lemma {:induction false} MatchOfLine(ts: seq<Token>, line: string, ahead: string)
    requires Free(line, '\n') && !ReadsOn(ahead)
    ensures Match(ts, line + "\n" + ahead) == Match(ts, line)
    decreases ts
  {
    hide Take, ReadsOn;
    if ts != [] && line != "" {
      TakeOfLine(ts[0], line, ahead);
      var taken := Take(ts[0], line);
      if taken.Some? {
        var n := taken.value.length;
        assert (line + "\n" + ahead)[n..] == line[n..] + "\n" + ahead;
        MatchOfLine(ts[1..], line[n..], ahead);
      }
    }
  }

  lemma TextOfLine(t: string, line: string, ahead: string)
    requires Free(line, '\n') && !ReadsOn(ahead)
    ensures MatchText(t, line + "\n" + ahead) == MatchText(t, line)
  {
    hide Match, MatchText, Tokenise, ReadsOn;
    MatchTextIsMatch(t, line);
    MatchTextIsMatch(t, line + "\n" + ahead);
    if Tokenise(t).Some? { MatchOfLine(Tokenise(t).value, line, ahead); }
  }

  lemma LineDecides(rule: string, line: string, ahead: string)
    requires Free(line, '\n') && !ReadsOn(ahead)
    ensures Sendable(rule, line + "\n" + ahead) == Sendable(rule, line)
  {
    hide MatchText, ReadsOn, Recorded;
    var n := Span(rule, IsNameChar);
    if At(rule, n) == '|' { TextOfLine(rule[n + 1..], line, ahead); }
  }

  // ----- text that goes on like a timestamp gives some rule a match that its line does not have

  function Literals(s: string): (ts: seq<Token>)
    ensures |ts| == |s| && forall k :: 0 <= k < |s| ==> ts[k] == Literal(s[k])
  {
    seq(|s|, i requires 0 <= i < |s| => Literal(s[i]))
  }

  lemma PrependNothing(r: Option<seq<Arg>>)
    ensures Prepend([], r) == r
  {
    if r.Some? { assert [] + r.value == r.value; }
  }

  lemma {:induction false} LiteralsMatch(s: string, tail: string)
    requires Free(s, '\n') && Ended(tail)
    ensures Match(Literals(s), s + tail) == Some([])
    decreases |s|
  {
    if s == "" {
      assert s + tail == tail;
    } else {
      assert Literals(s)[1..] == Literals(s[1..]);
      assert (s + tail)[1..] == s[1..] + tail;
      LiteralsMatch(s[1..], tail);
      PrependNothing(Match(Literals(s[1..]), s[1..] + tail));
    }
  }

  lemma {:induction false} LiteralsSpell(s: string)
    requires IsLine(s)
    ensures Spellable(Literals(s)) && IsLine(Spell(Literals(s)))
    decreases |s|
  {
    if s != "" {
      assert Literals(s)[1..] == Literals(s[1..]);
      LiteralsSpell(s[1..]);
    }
  }

  /** The line that ends inside the day of a timestamp, for either place of the newline. */
  function BrokenLine(ahead: string): string {
    if ClockAt(ahead, 0) then "Jan 5" else "Jan "
  }

  lemma BrokenDate(ahead: string)
    requires ReadsOn(ahead)
    ensures ReadDate(BrokenLine(ahead) + "\n" + ahead).Some?
  {
    hide Atoi, ReadClock;
    var line := BrokenLine(ahead);
    var s := line + "\n" + ahead;
    assert "Jan" <= s by { assert s[..3] == "Jan"; }
    if ClockAt(ahead, 0) {
      FiveOverNewline("\n" + ahead);
      assert s[4..] == "5" + ("\n" + ahead) && s[6] == ahead[0] && s[7..] == ahead[1..];
    } else {
      AtoiOverNewline(ahead);
      assert s[4..] == "\n" + ahead && s[6] == ahead[1] && s[7..] == ahead[2..];
    }
  }

  lemma FiveOverNewline(rest: string)
    requires rest != "" && rest[0] == '\n'
    ensures Atoi("5" + rest) == 5
  {
    AtoiReads("", "5", rest);
    assert "" + ("5" + rest) == "5" + rest;
    assert "5"[..0] == "";
  }

  /** What the text behind the timestamp leaves of its line. */
  lemma RestAhead(ahead: string) returns (rest: string, tail: string)
    requires ReadsOn(ahead) && Free(ahead, '\0')
    ensures var s := BrokenLine(ahead) + "\n" + ahead; |s| >= 15 && s[15..] == rest + tail
    ensures IsLine(rest) && Ended(tail)
  {
    hide ReadDate, ReadsOn, ClockAt;
    BrokenDate(ahead);
    var line := BrokenLine(ahead);
    var behind := (line + "\n" + ahead)[15..];
    assert forall k :: 0 <= k < |behind| ==> behind[k] == ahead[k + 14 - |line|];
    NoneBefore(behind, '\n');
    var n := Find(behind, '\n');
    rest, tail := behind[..n], behind[n..];
  }

  /** A nameless date and then the rest of the line read ahead: no match without that text. */
  lemma BrokenTokens(ahead: string, rest: string, tail: string)
    requires ReadsOn(ahead) && IsLine(rest) && Ended(tail)
    requires var s := BrokenLine(ahead) + "\n" + ahead; |s| >= 15 && s[15..] == rest + tail
    ensures Match([DateParam(None)] + Literals(rest), BrokenLine(ahead) + "\n" + ahead) == Some([])
    ensures Match([DateParam(None)] + Literals(rest), BrokenLine(ahead)) == None
  {
    hide ReadDate, ReadsOn, ClockAt, Match;
    BrokenDate(ahead);
    LiteralsMatch(rest, tail);
    DateThen(Literals(rest), BrokenLine(ahead) + "\n" + ahead);
    DateThen(Literals(rest), BrokenLine(ahead));
    assert (BrokenLine(ahead) + "\n" + ahead)[0] == 'J';
  }

  lemma DateThen(ts: seq<Token>, m: string)
    requires !Ended(m)
    ensures Match([DateParam(None)] + ts, m) == if ReadDate(m).Some? then Match(ts, m[15..]) else None
  {
    hide ReadDate, PrintDate;
    assert ([DateParam(None)] + ts)[1..] == ts;
    if ReadDate(m).Some? { PrependNothing(Match(ts, m[15..])); }
  }

  /** The rule of that name with the spelled tokens as its template. */
  lemma RuleSends(ts: seq<Token>, m: string)
    requires Spellable(ts)
    ensures Sendable("R|" + Spell(ts), m) == Recorded("R", Match(ts, m))
  {
    hide Match, MatchText, Tokenise, Spell, Spellable, Recorded;
    var rule := "R|" + Spell(ts);
    assert rule[2..] == Spell(ts) && rule[..1] == "R";
    SpanIs(rule, IsNameChar, 1);
    SpellReads(ts);
    MatchTextIsMatch(Spell(ts), m);
  }

  lemma DateSpells(rest: string)
    requires IsLine(rest)
    ensures var ts := [DateParam(None)] + Literals(rest); Spellable(ts) && IsLine("R|" + Spell(ts))
  {
    LiteralsSpell(rest);
    assert ([DateParam(None)] + Literals(rest))[1..] == Literals(rest);
  }

  lemma BrokenMatches(ahead: string) returns (rule: string)
    requires ReadsOn(ahead) && Free(ahead, '\0')
    ensures IsLine(rule) && IsLine(BrokenLine(ahead))
    ensures Sendable(rule, BrokenLine(ahead) + "\n" + ahead).Some? && Sendable(rule, BrokenLine(ahead)).None?
  {
    hide ReadsOn, Sendable, Spell, Match, Record;
    var line := BrokenLine(ahead);
    var rest, tail := RestAhead(ahead);
    var ts := [DateParam(None)] + Literals(rest);
    DateSpells(rest);
    BrokenTokens(ahead, rest, tail);
    rule := "R|" + Spell(ts);
    RuleSends(ts, line + "\n" + ahead);
    RuleSends(ts, line);
    SmallRecord();
  }

  lemma SmallRecord()
    ensures |Record("R", [])| < MSG_MAX_SIZE
  {
  }

  /** Whether text read ahead is left alone by every rule and every line. */
  lemma ReadAheadIsExact(ahead: string)
    requires Free(ahead, '\0')
    ensures !ReadsOn(ahead) <==>
              forall rule, line :: IsLine(rule) && IsLine(line) ==>
                Sendable(rule, line + "\n" + ahead) == Sendable(rule, line)
  {
    hide Sendable, ReadsOn, BrokenLine;
    if ReadsOn(ahead) {
      var rule := BrokenMatches(ahead);
    } else {
      forall rule, line | IsLine(rule) && IsLine(line)
        ensures Sendable(rule, line + "\n" + ahead) == Sendable(rule, line)
      {
        LineDecides(rule, line, ahead);
      }
    }
  }
}
