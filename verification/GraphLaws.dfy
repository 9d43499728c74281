/** What the samples of a graph add up to. */
module GraphLaws {
  import opened CStrings
  import opened Conditions
  import opened Dates
  import opened Templates
  import opened RecordMatch
  import opened RecordQueries
  import opened CountQuery
  import opened LogQueries
  import opened Graph
  import opened Records

  // ----- entries with one timestamp

  /** Argument `n` is the only one whose name ends like a timestamp's, and it is compared as text. */
  predicate StampedAt(e: Entry, n: nat) {
    n < |e.args| && EndsWith(e.args[n].name, STAMP) && !(e.args[n].kind.Number? && e.args[n].name == STAMP)
    && forall m :: 0 <= m < |e.args| && m != n ==> !EndsWith(e.args[m].name, STAMP)
  }

  predicate OneStamp(e: Entry) {
    exists n :: 0 <= n < |e.args| && StampedAt(e, n)
  }

  function StampFrom(args: seq<Arg>): string {
    if args == [] then "" else if EndsWith(args[0].name, STAMP) then args[0].value else StampFrom(args[1..])
  }

  function StampValue(e: Entry): string {
    StampFrom(e.args)
  }

  lemma {:induction false} StampIsValue(args: seq<Arg>, n: nat)
    requires n < |args| && EndsWith(args[n].name, STAMP)
    requires forall m :: 0 <= m < n ==> !EndsWith(args[m].name, STAMP)
    ensures StampFrom(args) == args[n].value
    decreases n
  {
    hide EndsWith;
    if n > 0 {
      assert args[1..][n - 1] == args[n] && forall m :: 0 <= m < n - 1 ==> args[1..][m] == args[m + 1];
      StampIsValue(args[1..], n - 1);
    }
  }

  /** On such an entry a condition on the timestamp is about that one value. */
  lemma StampCondition(e: Entry, op: Op, text: string)
    requires OneStamp(e)
    ensures SatisfiedBy(Cond(STAMP, op, text), e.rule, e.args) <==> Satisfies(op, false, text, StampValue(e))
  {
    hide EndsWith, Satisfies, StampValue, STAMP;
    StampIsNoRule();
    var n :| 0 <= n < |e.args| && StampedAt(e, n);
    StampValueIs(e, n);
    var c, a := Cond(STAMP, op, text), e.args[n];
    assert a in e.args;
    assert ArgSatisfies(c, a) <==> Satisfies(op, false, text, StampValue(e));
    forall b | b in e.args && ArgSatisfies(c, b) ensures b == a {
      var m :| 0 <= m < |e.args| && e.args[m] == b;
    }
  }

  lemma StampIsNoRule()
    ensures STAMP != "rule"
  {
    assert |STAMP| == 15;
  }

  lemma StampValueIs(e: Entry, n: nat)
    requires StampedAt(e, n)
    ensures StampValue(e) == e.args[n].value
  {
    StampIsValue(e.args, n);
  }

  // ----- counting by timestamp

  predicate InRange(e: Entry, from: string, to: string) {
    !Less(StampValue(e), from) && Less(StampValue(e), to)
  }

  /** Entries that meet the user's conditions, with a timestamp from `from` on and in front of `to`. */
  function CountRange(es: seq<Entry>, user: seq<Cond>, from: string, to: string): nat {
    if es == [] then 0
    else (if Meets(es[0], user) && InRange(es[0], from, to) then 1 else 0) + CountRange(es[1..], user, from, to)
  }

  lemma MeetsMore(e: Entry, user: seq<Cond>, more: seq<Cond>)
    ensures Meets(e, user + more) <==> Meets(e, user) && Meets(e, more)
  {
    hide SatisfiedBy;
    assert forall c <- user :: c in user + more;
    assert forall c <- more :: c in user + more;
  }

  lemma MeetsBetween(e: Entry, from: string, to: string)
    requires OneStamp(e)
    ensures Meets(e, Between(from, to)) <==> Less(from, StampValue(e)) && Less(StampValue(e), to)
    ensures Meets(e, Exactly(from)) <==> StampValue(e) == from
  {
    hide SatisfiedBy, OneStamp, StampValue, Less;
    StampCondition(e, Above, from);
    StampCondition(e, Below, to);
    StampCondition(e, Equal, from);
    var b := Between(from, to);
    assert b[0] in b && b[1] in b;
    assert Exactly(from)[0] in Exactly(from);
  }

  lemma OneEntry(e: Entry, user: seq<Cond>, from: string, to: string)
    requires OneStamp(e) && Less(from, to)
    ensures !(Meets(e, user + Between(from, to)) && Meets(e, user + Exactly(from)))
    ensures Meets(e, user + Between(from, to)) || Meets(e, user + Exactly(from))
            <==> Meets(e, user) && InRange(e, from, to)
  {
    hide Meets, Less, StampValue, Between, Exactly, OneStamp;
    var v := StampValue(e);
    MeetsMore(e, user, Between(from, to));
    MeetsMore(e, user, Exactly(from));
    MeetsBetween(e, from, to);
    LessTotal(from, v);
    LessTotal(from, to);
  }

  /** The open interval and its first point together are the half-open interval. */
  lemma {:induction false} PairCounts(es: seq<Entry>, user: seq<Cond>, from: string, to: string)
    requires (forall e <- es :: OneStamp(e)) && Less(from, to)
    ensures CountEntries(es, user + Between(from, to)) + CountEntries(es, user + Exactly(from))
         == CountRange(es, user, from, to)
    decreases |es|
  {
    hide Meets, Less, InRange, OneStamp, Between, Exactly;
    if es != [] {
      assert es[0] in es && forall e <- es[1..] :: e in es;
      OneEntry(es[0], user, from, to);
      PairCounts(es[1..], user, from, to);
    }
  }

  lemma InEither(e: Entry, from: string, mid: string, to: string)
    requires !Less(mid, from) && !Less(to, mid)
    ensures InRange(e, from, to) <==> InRange(e, from, mid) || InRange(e, mid, to)
    ensures !(InRange(e, from, mid) && InRange(e, mid, to))
  {
    hide Less, StampValue;
    var v := StampValue(e);
    LessTotal(from, mid);
    LessTotal(mid, to);
    LessTotal(v, mid);
    LessTotal(v, from);
    LessTotal(v, to);
    if Less(v, from) && Less(from, mid) { LessTransitive(v, from, mid); }
    if Less(v, mid) && Less(mid, to) { LessTransitive(v, mid, to); }
  }

  /** Neighbouring ranges are disjoint and add up. */
  lemma {:induction false} RangesAdd(es: seq<Entry>, user: seq<Cond>, from: string, mid: string, to: string)
    requires !Less(mid, from) && !Less(to, mid)
    ensures CountRange(es, user, from, mid) + CountRange(es, user, mid, to) == CountRange(es, user, from, to)
    decreases |es|
  {
    hide Meets, Less, InRange;
    if es != [] {
      InEither(es[0], from, mid, to);
      RangesAdd(es[1..], user, from, mid, to);
    }
  }

  lemma {:induction false} EmptyRange(es: seq<Entry>, user: seq<Cond>, at: string)
    ensures CountRange(es, user, at, at) == 0
    decreases |es|
  {
    hide Meets, Less, StampValue;
    if es != [] { EmptyRange(es[1..], user, at); }
  }

  // ----- from query texts to entries

  lemma StampPrintable(op: Op, text: string)
    requires text != "" && Free(text, '"')
    ensures Printable(Cond(STAMP, op, text))
  {
  }

  function OpenOf(op: Op): string {
    match op
    case Above => ABOVE_OPEN case Below => BELOW_OPEN case Equal => EQUAL_OPEN case NotEqual => "&__LOG_TIMESTAMP!\""
  }

  lemma OpenIs(op: Op)
    ensures "&" + (STAMP + ([OpChar(op)] + "\"")) == OpenOf(op)
  {
  }

  lemma PrintOne(op: Op, value: string)
    ensures "&" + PrintCond(Cond(STAMP, op, value)) == OpenOf(op) + value + "\""
  {
    hide OpChar, OpenOf, STAMP;
    var n, o, q := STAMP, [OpChar(op)], "\"";
    OpenIs(op);
    Assoc("&", n + o + q + value, q);
    Assoc("&", n + o + q, value);
    Assoc(n, o, q);
  }

  lemma PrintTwo(c: Cond, d: Cond)
    ensures PrintList([c], true) == "&" + PrintCond(c)
    ensures PrintList([c, d], true) == "&" + PrintCond(c) + ("&" + PrintCond(d))
  {
    hide PrintCond;
    assert [c, d][1..] == [d] && [d][1..] == [] && [c][1..] == [];
    NoTail("&" + PrintCond(c));
    NoTail("&" + PrintCond(d));
  }

  lemma TextsAreLists(from: string, to: string)
    ensures BetweenText(from, to) == PrintList(Between(from, to), true)
    ensures ExactlyText(from) == PrintList(Exactly(from), true)
  {
    hide PrintCond, PrintList, STAMP, ABOVE_OPEN, BELOW_OPEN, EQUAL_OPEN;
    var c, d, e := Cond(STAMP, Above, from), Cond(STAMP, Below, to), Cond(STAMP, Equal, from);
    PrintOne(Equal, from);
    PrintOne(Above, from);
    PrintOne(Below, to);
    PrintTwo(c, d);
    PrintTwo(e, d);
    var x := ABOVE_OPEN + from + "\"";
    Assoc(x, BELOW_OPEN, to);
    Assoc(x, BELOW_OPEN + to, "\"");
  }

  /** The user's conditions, when they are complete, and the appended ones are parsed as one list. */
  lemma AppendedParses(user: string, from: string, to: string)
    requires Closed(user) && ParseFrom(user).Conds?
    requires from != "" && to != "" && Free(from, '"') && Free(to, '"')
    ensures Parse(user + BetweenText(from, to)) == Conds(ParseFrom(user).list + Between(from, to))
    ensures Parse(user + ExactlyText(from)) == Conds(ParseFrom(user).list + Exactly(from))
  {
    hide PrintList, ParseFrom, Printable;
    TextsAreLists(from, to);
    StampPrintable(Above, from);
    StampPrintable(Below, to);
    StampPrintable(Equal, from);
    ListParses(Between(from, to));
    ListParses(Exactly(from));
    AppendParses(user, BetweenText(from, to));
    AppendParses(user, ExactlyText(from));
  }

  lemma ListParses(cs: seq<Cond>)
    requires forall c <- cs :: Printable(c)
    ensures ParseFrom(PrintList(cs, true)) == Conds(cs)
  {
    hide PrintList, Printable;
    ListReads(cs, true, "");
    NoTail(PrintList(cs, true));
    assert ParseFrom("") == Conds([]);
    NoTail(cs);
  }

  // ----- the samples of a graph

  lemma DateText(start: nat, total: nat, samples: nat, i: nat)
    requires samples >= 1 && i <= samples && start + total < YEAR
    ensures var t := StampText(start, total, samples, i);
            |t| == 14 && Free(t, '"') && OpFree(t) && t[0] != '&'
  {
    hide Boundary, StampOf, PrintDate;
    BoundaryInYear(start, total, samples, i);
    var t := StampText(start, total, samples, i);
    assert forall k :: 0 <= k < |t| ==> t[k] in t;
  }

  lemma DateOrder(start: nat, total: nat, samples: nat, i: nat, j: nat)
    requires samples >= 1 && i <= samples && j <= samples && start + total < YEAR
    ensures Less(StampText(start, total, samples, i), StampText(start, total, samples, j))
            <==> Boundary(start, total, samples, i) < Boundary(start, total, samples, j)
  {
    hide Boundary, StampOf, PrintDate, Less, Format;
    BoundaryInYear(start, total, samples, i);
    BoundaryInYear(start, total, samples, j);
    FormatOrder(Boundary(start, total, samples, i), Boundary(start, total, samples, j));
  }

  /** The log and the user's conditions of a graph that can be drawn. */
  predicate Drawable(es: seq<Entry>, user: string) {
    Storable(es) && (forall e <- es :: OneStamp(e)) && Closed(user) && ParseFrom(user).Conds?
  }

  lemma DrawableSearchable(es: seq<Entry>, user: string)
    requires Drawable(es, user)
    ensures Free(LogText(es), '\0') && Searchable(LogText(es))
  {
    hide Storable, LogText;
    QueryCounts(es, []);
  }

  /** What a sample shows: the entries its two queries count. */
  lemma SampleIs(es: seq<Entry>, user: string, start: nat, total: nat, samples: nat, i: nat)
    requires Drawable(es, user) && samples >= 1 && i < samples && start + total < YEAR
    ensures Searchable(LogText(es))
    ensures var from, to := StampText(start, total, samples, i), StampText(start, total, samples, i + 1);
            var cs := ParseFrom(user).list;
            SampleCount(LogText(es), user, start, total, samples, i)
            == CountEntries(es, cs + Between(from, to)) + CountEntries(es, cs + Exactly(from))
  {
    hide ParseFrom, Scan, CountAccepted, LogText, Boundary, Storable, StampText, BetweenText, ExactlyText,
         Searchable, Parse;
    DrawableSearchable(es, user);
    var from, to := StampText(start, total, samples, i), StampText(start, total, samples, i + 1);
    DateText(start, total, samples, i);
    DateText(start, total, samples, i + 1);
    AppendedParses(user, from, to);
    var cs := ParseFrom(user).list;
    ParsedAskable(user);
    AskableMore(cs, from, to);
    QueryCounts(es, cs + Between(from, to));
    QueryCounts(es, cs + Exactly(from));
    assert 2 * i / 2 == i && (2 * i + 1) / 2 == i && 2 * i % 2 == 0 && (2 * i + 1) % 2 == 1;
  }

  lemma AskableMore(cs: seq<Cond>, from: string, to: string)
    requires Askable(cs)
    ensures Askable(cs + Between(from, to)) && Askable(cs + Exactly(from))
  {
  }

  /** The sum over the first samples. */
  ghost function SumSamples(content: string, user: string, start: nat, total: nat, samples: nat, n: nat): int
    requires samples >= 1 && n <= samples && start + total < YEAR
  {
    if n == 0 then 0
    else
      SumSamples(content, user, start, total, samples, n - 1)
      + SampleCount(content, user, start, total, samples, n - 1)
  }

  /** A sample at least one second wide counts the entries from its first boundary on and in front of
      its second. */
  lemma SampleIsRange(es: seq<Entry>, user: string, start: nat, total: nat, samples: nat, i: nat)
    requires Drawable(es, user) && samples >= 1 && i < samples && start + total < YEAR && total >= samples
    ensures Searchable(LogText(es))
    ensures SampleCount(LogText(es), user, start, total, samples, i)
         == CountRange(es, ParseFrom(user).list, StampText(start, total, samples, i),
           StampText(start, total, samples, i + 1))
  {
    hide ParseFrom, LogText, Boundary, Storable, StampText, Searchable, SampleCount, CountRange, Less, Between, Exactly;
    SampleIs(es, user, start, total, samples, i);
    QuotientPositive(total, samples);
    Widths(start, total, samples, i);
    DateOrder(start, total, samples, i, i + 1);
    PairCounts(es, ParseFrom(user).list, StampText(start, total, samples, i), StampText(start, total, samples, i + 1));
  }

  // ----- samples by seconds

  /** The timestamp of `e` was captured from a line with the date `d` of the calendar. */
  predicate LoggedAt(e: Entry, d: Stamp) {
    CalendarDate(d)
    && exists n :: 0 <= n < |e.args| && StampedAt(e, n)
                   && [e.args[n]] == Reported(DateParam(Some(e.args[n].name)), RenderDate(d))
  }

  /** Such an entry carries the text that the client prints for the second of its date. */
  lemma LoggedSecond(e: Entry, d: Stamp)
    requires LoggedAt(e, d)
    ensures OneStamp(e) && SecondOf(d) < YEAR && StampValue(e) == Format(SecondOf(d))
  {
    hide SecondOf, StampOf, StampValue, Reported, RenderDate, PrintDate, StampedAt;
    var n :| 0 <= n < |e.args| && StampedAt(e, n)
             && [e.args[n]] == Reported(DateParam(Some(e.args[n].name)), RenderDate(d));
    StampValueIs(e, n);
    WrittenDateReported(e.args[n].name, d);
    StampOfSecond(d);
    assert e.args[n] == [e.args[n]][0];
  }

  /** Entries that meet the conditions, with a date whose second is from `from` on and in front of `to`. */
  function CountSeconds(es: seq<Entry>, dates: seq<Stamp>, user: seq<Cond>, from: nat, to: nat): nat
    requires |es| == |dates| && forall d <- dates :: CalendarDate(d)
  {
    if es == [] then 0
    else
      assert dates[0] in dates && forall d <- dates[1..] :: d in dates;
      (if Meets(es[0], user) && from <= SecondOf(dates[0]) < to then 1 else 0)
      + CountSeconds(es[1..], dates[1..], user, from, to)
  }

  predicate AllLogged(es: seq<Entry>, dates: seq<Stamp>) {
    |es| == |dates| && forall k :: 0 <= k < |es| ==> LoggedAt(es[k], dates[k])
  }

  lemma AllDates(es: seq<Entry>, dates: seq<Stamp>)
    requires AllLogged(es, dates)
    ensures (forall d <- dates :: CalendarDate(d)) && forall e <- es :: OneStamp(e)
  {
    hide LoggedAt, OneStamp, CalendarDate;
    forall d | d in dates ensures CalendarDate(d) {
      var k :| 0 <= k < |dates| && dates[k] == d;
      LoggedDate(es[k], d);
    }
    forall e | e in es ensures OneStamp(e) {
      var k :| 0 <= k < |es| && es[k] == e;
      LoggedSecond(e, dates[k]);
    }
  }

  lemma LoggedDate(e: Entry, d: Stamp)
    requires LoggedAt(e, d)
    ensures CalendarDate(d)
  {
  }

  lemma {:induction false} RangeBySeconds(es: seq<Entry>, dates: seq<Stamp>, user: seq<Cond>, from: nat, to: nat)
    requires AllLogged(es, dates) && from < YEAR && to < YEAR
    ensures forall d <- dates :: CalendarDate(d)
    ensures CountRange(es, user, Format(from), Format(to)) == CountSeconds(es, dates, user, from, to)
    decreases |es|
  {
    hide LoggedAt, Meets, StampValue, Format, SecondOf, CalendarDate, Less, OneStamp;
    AllDates(es, dates);
    if es != [] {
      LoggedSecond(es[0], dates[0]);
      FormatOrder(SecondOf(dates[0]), from);
      FormatOrder(SecondOf(dates[0]), to);
      RangeBySeconds(es[1..], dates[1..], user, from, to);
    }
  }

  /** A sample counts the lines of its own seconds: those whose date falls on its first second or behind
      it, and in front of the first second of the next sample. */
  lemma SampleCountsItsSeconds(es: seq<Entry>, dates: seq<Stamp>, user: string, start: nat, total: nat, samples: nat,
                               i: nat)
    requires Storable(es) && AllLogged(es, dates) && Closed(user) && ParseFrom(user).Conds?
    requires samples >= 1 && i < samples && start + total < YEAR && total >= samples
    ensures Searchable(LogText(es)) && forall d <- dates :: CalendarDate(d)
    ensures SampleCount(LogText(es), user, start, total, samples, i)
         == CountSeconds(es, dates, ParseFrom(user).list, Boundary(start, total, samples, i),
           Boundary(start, total, samples, i + 1))
  {
    hide ParseFrom, LogText, Boundary, Storable, Searchable, SampleCount, CountRange, CountSeconds, Format, AllLogged,
         Closed, CalendarDate, OneStamp;
    AllDates(es, dates);
    SampleIsRange(es, user, start, total, samples, i);
    BoundaryInYear(start, total, samples, i);
    BoundaryInYear(start, total, samples, i + 1);
    RangeBySeconds(es, dates, ParseFrom(user).list, Boundary(start, total, samples, i),
      Boundary(start, total, samples, i + 1));
  }

  lemma QuotientPositive(total: nat, samples: nat)
    requires samples >= 1
    ensures total >= samples <==> total / samples >= 1
  {
    var q, r := total / samples, total % samples;
    assert total == q * samples + r;
    if q >= 1 { Monotone(1, q, samples); }
  }

  lemma {:induction false} SumIsRange(es: seq<Entry>, user: string, start: nat, total: nat, samples: nat, n: nat)
    requires Drawable(es, user) && samples >= 1 && n <= samples && start + total < YEAR && total >= samples
    ensures Searchable(LogText(es))
    ensures SumSamples(LogText(es), user, start, total, samples, n)
         == CountRange(es, ParseFrom(user).list, StampText(start, total, samples, 0),
           StampText(start, total, samples, n))
    decreases n
  {
    hide ParseFrom, LogText, Boundary, Storable, StampText, Searchable, SampleCount, CountRange, Less, Drawable;
    DrawableSearchable(es, user);
    DrawableStamps(es, user);
    var first := StampText(start, total, samples, 0);
    if n == 0 {
      EmptyRange(es, ParseFrom(user).list, first);
    } else {
      SumIsRange(es, user, start, total, samples, n - 1);
      SampleIsRange(es, user, start, total, samples, n - 1);
      DateOrder(start, total, samples, n - 1, 0);
      DateOrder(start, total, samples, n, n - 1);
      BoundariesAscend(start, total, samples, 0, n - 1);
      BoundariesAscend(start, total, samples, n - 1, n);
      RangesAdd(es, ParseFrom(user).list, first, StampText(start, total, samples, n - 1),
        StampText(start, total, samples, n));
    }
  }

  lemma DrawableStamps(es: seq<Entry>, user: string)
    requires Drawable(es, user)
    ensures ParseFrom(user).Conds? && Storable(es) && forall e <- es :: OneStamp(e)
  {
  }

  /** All samples together count every entry of the covered range once. */
  ghost predicate Conserves(es: seq<Entry>, user: string, start: nat, total: nat, samples: nat)
    requires Drawable(es, user) && samples >= 1 && start + total < YEAR
  {
    DrawableSearchable(es, user);
    SumSamples(LogText(es), user, start, total, samples, samples)
    == CountRange(es, ParseFrom(user).list, StampText(start, total, samples, 0),
      StampText(start, total, samples, samples))
  }

  lemma WideEnoughConserves(es: seq<Entry>, user: string, start: nat, total: nat, samples: nat)
    requires Drawable(es, user) && samples >= 1 && start + total < YEAR && total >= samples
    ensures Conserves(es, user, start, total, samples)
  {
    hide ParseFrom, LogText, Boundary, Storable, StampText, Searchable, SampleCount, CountRange, Drawable;
    SumIsRange(es, user, start, total, samples, samples);
  }

  // ----- ranges shorter than one second a sample

  /** The first sample is then empty, but its first point is counted all the same. */
  lemma CountsPoint(e: Entry, user: string, start: nat, total: nat, samples: nat, i: nat)
    requires Drawable([e], user) && samples >= 1 && i < samples && start + total < YEAR
    requires Meets(e, ParseFrom(user).list) && StampValue(e) == StampText(start, total, samples, i)
    ensures Searchable(LogText([e]))
    ensures SampleCount(LogText([e]), user, start, total, samples, i) >= 1
  {
    hide ParseFrom, LogText, Boundary, Storable, StampText, Searchable, SampleCount, Meets, Between, Exactly,
         StampValue;
    SampleIs([e], user, start, total, samples, i);
    var from := StampText(start, total, samples, i);
    assert e in [e];
    MeetsMore(e, ParseFrom(user).list, Exactly(from));
    MeetsBetween(e, from, from);
  }

  lemma {:induction false} SumAtLeast(es: seq<Entry>, user: string, start: nat, total: nat, samples: nat, n: nat,
        m: nat)
    requires Drawable(es, user) && samples >= 1 && m <= n <= samples && start + total < YEAR
    ensures Searchable(LogText(es))
    ensures SumSamples(LogText(es), user, start, total, samples, n)
          >= SumSamples(LogText(es), user, start, total, samples, m)
    decreases n
  {
    hide ParseFrom, LogText, Boundary, Storable, StampText, Searchable, SampleCount, Drawable, CountEntries;
    DrawableSearchable(es, user);
    if m < n {
      SumAtLeast(es, user, start, total, samples, n - 1, m);
      SampleIs(es, user, start, total, samples, n - 1);
    }
  }

  lemma RangeOfOne(e: Entry, cs: seq<Cond>, from: string, to: string)
    ensures CountRange([e], cs, from, to) <= 1
  {
    hide Meets, InRange;
    assert [e][1..] == [];
    assert CountRange([], cs, from, to) == 0;
  }

  /** A range shorter than its samples: any single entry at its start that meets the conditions breaks
      the conservation. */
  lemma TooNarrowFails(e: Entry, user: string, start: nat, total: nat, samples: nat)
    requires Drawable([e], user) && samples >= 1 && start + total < YEAR && total < samples
    requires Meets(e, ParseFrom(user).list) && StampValue(e) == StampText(start, total, samples, 0)
    ensures !Conserves([e], user, start, total, samples)
  {
    hide ParseFrom, LogText, Storable, Searchable, SampleCount, Drawable, Meets, StampValue, Format, Less, InRange;
    DrawableStamps([e], user);
    var es, cs := [e], ParseFrom(user).list;
    DrawableSearchable(es, user);
    var content := LogText(es);
    QuotientPositive(total, samples);
    FirstIsEmpty(start, total, samples);
    CountsPoint(e, user, start, total, samples, 0);
    SumAtLeast(es, user, start, total, samples, samples, 1);
    SumOne(content, user, start, total, samples);
    RangeOfOne(e, cs, StampText(start, total, samples, 0), StampText(start, total, samples, samples));
    if samples == 1 {
      EmptyRange(es, cs, StampText(start, total, samples, 0));
    } else {
      CountsPoint(e, user, start, total, samples, 1);
      SumAtLeast(es, user, start, total, samples, samples, 2);
      SumTwo(content, user, start, total, samples);
    }
  }

  lemma FirstIsEmpty(start: nat, total: nat, samples: nat)
    requires samples >= 1 && total / samples == 0 && start + total < YEAR
    ensures StampText(start, total, samples, 1) == StampText(start, total, samples, 0)
  {
    hide Format;
    BoundaryInYear(start, total, samples, 1);
    assert 0 * (total % samples) == 0;
  }

  lemma SumOne(content: string, user: string, start: nat, total: nat, samples: nat)
    requires samples >= 1 && start + total < YEAR
    ensures SumSamples(content, user, start, total, samples, 1) == SampleCount(content, user, start, total, samples, 0)
  {
    hide SampleCount, Searchable;
    assert SumSamples(content, user, start, total, samples, 0) == 0;
  }

  lemma SumTwo(content: string, user: string, start: nat, total: nat, samples: nat)
    requires samples >= 2 && start + total < YEAR
    ensures SumSamples(content, user, start, total, samples, 2)
         == SampleCount(content, user, start, total, samples, 0) + SampleCount(content, user, start, total, samples, 1)
  {
    hide SampleCount, Searchable;
    SumOne(content, user, start, total, samples);
  }

  /** An entry whose only argument is a timestamp. */
  function StampOnly(text: string): Entry {
    Entry("R", [Arg(Kind.Date, STAMP, text)])
  }

  lemma StampOnlyStamped(text: string)
    ensures OneStamp(StampOnly(text)) && StampValue(StampOnly(text)) == text
  {
    var e := StampOnly(text);
    assert STAMP[|STAMP| - |STAMP|..] == STAMP;
    assert StampedAt(e, 0);
    StampValueIs(e, 0);
  }

  lemma StampOnlyStorable(text: string)
    requires |text| == 14 && forall c <- text :: IsDigit(c) || c == ' ' || c == ':'
    ensures Storable([StampOnly(text)])
  {
    var e := StampOnly(text);
    StampNameClean();
    assert forall k: nat :: OccursAt(text, CLOSE, k) ==> text[k..][0] == ']' && text[k] in text;
    assert Regular(e);
    assert PrintArgs(e.args)[1..] == [] && PrintArgs(e.args) == [PrintArg(e.args[0])];
    assert |TextOf(e)| < 200;
    assert TextsOf([e]) == [TextOf(e)];
  }

  lemma StampNameClean()
    ensures CleanName(STAMP) && CleanName("R")
  {
  }

  lemma StampOnlyDrawable(start: nat, total: nat, samples: nat)
    requires samples >= 1 && start + total < YEAR
    ensures var e := StampOnly(StampText(start, total, samples, 0));
            Drawable([e], "") && Meets(e, ParseFrom("").list) && StampValue(e) == StampText(start, total, samples, 0)
  {
    hide Boundary, StampOf, Storable, OneStamp, StampValue, SatisfiedBy;
    var text := StampText(start, total, samples, 0);
    BoundaryInYear(start, total, samples, 0);
    StampOnlyStamped(text);
    StampOnlyStorable(text);
    assert ParseFrom("") == Conds([]);
  }

  /** The conservation law holds of every log and every list of conditions exactly when the range has at
      least one second a sample; already a graph without conditions breaks it on a shorter range. */
  lemma ConservationIsExact(start: nat, total: nat, samples: nat)
    requires samples >= 1 && start + total < YEAR
    ensures total >= samples <==>
              forall es, user :: Drawable(es, user) ==> Conserves(es, user, start, total, samples)
    ensures total >= samples <==> forall es :: Drawable(es, "") ==> Conserves(es, "", start, total, samples)
  {
    hide Drawable, Conserves, Meets, ParseFrom, StampValue, StampText, StampOnly;
    if total >= samples {
      forall es, user | Drawable(es, user) ensures Conserves(es, user, start, total, samples) {
        WideEnoughConserves(es, user, start, total, samples);
      }
    } else {
      StampOnlyDrawable(start, total, samples);
      TooNarrowFails(StampOnly(StampText(start, total, samples, 0)), "", start, total, samples);
    }
  }

  // ----- conditions that end inside a value

  /** Accepted conditions can be graphed exactly when their last value is closed by its quote: an open
      value swallows the appended text, and every sample shows the mark for two refusals. */
  lemma OpenConditionsRefused(content: string, user: string, start: nat, total: nat, samples: nat, i: nat)
    requires samples >= 1 && i < samples && start + total < YEAR
    requires ParseFrom(user).Conds? && !Closed(user)
    ensures AnswerTo(content, user, start, total, samples, 2 * i) == None
    ensures AnswerTo(content, user, start, total, samples, 2 * i + 1) == None
    ensures SampleCount(content, user, start, total, samples, i) == -10
  {
    hide ParseFrom, StampText, Searchable, Scan, CountAccepted, OpFree, Closed, BetweenText, ExactlyText;
    var from, to := StampText(start, total, samples, i), StampText(start, total, samples, i + 1);
    DateText(start, total, samples, i);
    OpenTexts(from, to);
    AppendBreaks(user, "&__LOG_TIMESTAMP>", from, BELOW_OPEN + to + "\"");
    AppendBreaks(user, "&__LOG_TIMESTAMP=", from, "");
    assert 2 * i / 2 == i && (2 * i + 1) / 2 == i && 2 * i % 2 == 0 && (2 * i + 1) % 2 == 1;
  }

  lemma OpenTexts(from: string, to: string)
    ensures BetweenText(from, to) == "&__LOG_TIMESTAMP>" + ("\"" + (from + ("\"" + (BELOW_OPEN + to + "\""))))
    ensures ExactlyText(from) == "&__LOG_TIMESTAMP=" + ("\"" + (from + ("\"" + "")))
  {
    var a, e, q, b := "&__LOG_TIMESTAMP>", "&__LOG_TIMESTAMP=", "\"", BELOW_OPEN;
    assert a + q == ABOVE_OPEN && e + q == EQUAL_OPEN;
    NoTail(q);
    Assoc(e, q, from + q);
    Assoc(e + q, from, q);
    OpenText(a, q, from, b, to);
  }

  lemma OpenText(a: string, q: string, from: string, b: string, to: string)
    ensures (a + q) + from + q + b + to + q == a + (q + (from + (q + (b + to + q))))
  {
    Assoc((a + q) + from + q + b, to, q);
    Assoc((a + q) + from + q, b, to + q);
    Assoc((a + q) + from, q, b + (to + q));
    Assoc(a + q, from, q + (b + (to + q)));
    Assoc(a, q, from + (q + (b + (to + q))));
    Assoc(b, to, q);
  }
}
