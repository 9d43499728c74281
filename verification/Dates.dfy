/** The BSD syslog timestamp of section 4.1.2 of RFC 3164, as the agent reads and prints it, and the
    calendar that turns seconds into the printed form. */
module Dates {
  import opened CStrings

  datatype Stamp = Stamp(month: nat, day: nat, hour: nat, minute: nat, second: nat)

  function MonthName(month: nat): (name: string)
    requires 1 <= month <= 12
    ensures |name| == 3
  {
    if month == 1 then "Jan" else if month == 2 then "Feb" else if month == 3 then "Mar"
    else if month == 4 then "Apr" else if month == 5 then "May" else if month == 6 then "Jun"
    else if month == 7 then "Jul" else if month == 8 then "Aug" else if month == 9 then "Sep"
    else if month == 10 then "Oct" else if month == 11 then "Nov" else "Dec"
  }

  /** The fields a date can carry once read: only month and day are range checked. */
  predicate Readable(d: Stamp) {
    1 <= d.month <= 12 && d.day <= 31 && d.hour < 100 && d.minute < 100 && d.second < 100
  }

  /** 1 for January, 0 when no month name starts the text. */
  function MonthOf(s: string): nat {
    if "Jan" <= s then 1 else if "Feb" <= s then 2 else if "Mar" <= s then 3
    else if "Apr" <= s then 4 else if "May" <= s then 5 else if "Jun" <= s then 6
    else if "Jul" <= s then 7 else if "Aug" <= s then 8 else if "Sep" <= s then 9
    else if "Oct" <= s then 10 else if "Nov" <= s then 11 else if "Dec" <= s then 12
    else 0
  }

  predicate TwoDigitsAt(s: string, k: nat) {
    IsDigit(At(s, k)) && IsDigit(At(s, k + 1))
  }

  function Two(s: string, k: nat): nat
    requires TwoDigitsAt(s, k)
  {
    DigitValue(At(s, k)) * 10 + DigitValue(At(s, k + 1))
  }

  datatype Clock = Clock(hour: nat, minute: nat, second: nat)

  /** `hh:mm:ss`, in any two digits each. */
  function ReadClock(s: string): (r: Option<Clock>)
    ensures r.Some? ==> |s| >= 8 && r.value.hour < 100 && r.value.minute < 100 && r.value.second < 100
  {
    if !TwoDigitsAt(s, 0) || At(s, 2) != ':' then None
    else if !TwoDigitsAt(s, 3) || At(s, 5) != ':' then None
    else if !TwoDigitsAt(s, 6) then None
    else Some(Clock(Two(s, 0), Two(s, 3), Two(s, 6)))
  }

  /** The date at the front of `s`: month name, blank, two day characters, blank, `hh:mm:ss`. */
  function ReadDate(s: string): (r: Option<Stamp>)
    ensures r.Some? ==> |s| >= 15 && Readable(r.value)
  {
    var month := MonthOf(s);
    if month == 0 || At(s, 3) != ' ' then None
    else
      var day := Atoi(s[4..]);
      if day < 0 || day > 31 || At(s, 6) != ' ' then None
      else match ReadClock(s[7..])
        case None => None
        case Some(c) => Some(Stamp(month, day, c.hour, c.minute, c.second))
  }

  function DigitChar(n: nat): char
    requires n < 10
  {
    '0' + n as char
  }

  /** `%02d`. */
  function D2(n: nat): (s: string)
    requires n < 100
    ensures |s| == 2 && TwoDigitsAt(s, 0) && Two(s, 0) == n
  {
    [DigitChar(n / 10), DigitChar(n % 10)]
  }

  /** `%02d %02d %02d:%02d:%02d`. */
  function PrintDate(d: Stamp): (s: string)
    requires Readable(d)
    ensures |s| == 14 && forall c <- s :: IsDigit(c) || c == ' ' || c == ':'
  {
    D2(d.month) + " " + D2(d.day) + " " + D2(d.hour) + ":" + D2(d.minute) + ":" + D2(d.second)
  }

  /** The day of the month as RFC 3164 writes it: padded with a blank, not with a zero. */
  function DayText(day: nat): string
    requires day < 100
  {
    if day < 10 then [' ', DigitChar(day)] else D2(day)
  }

  /** The timestamp of section 4.1.2 of RFC 3164. */
  function RenderDate(d: Stamp): (s: string)
    requires Readable(d)
    ensures |s| == 15
  {
    MonthName(d.month) + " " + DayText(d.day) + " " + ClockText(d)
  }

  function ClockText(d: Stamp): (s: string)
    requires Readable(d)
    ensures |s| == 8
  {
    D2(d.hour) + ":" + D2(d.minute) + ":" + D2(d.second)
  }

  lemma DigitsThen(digits: string, rest: string)
    requires digits != "" && forall k :: 0 <= k < |digits| ==> IsDigit(digits[k])
    requires rest == "" || !IsDigit(rest[0])
    ensures SignedValue(digits + rest) == Value(digits)
  {
    var t := digits + rest;
    assert IsDigit(digits[0]) && t[0] == digits[0];
    assert |digits| < |t| ==> t[|digits|] == rest[0];
    SpanIs(t, IsDigit, |digits|);
    assert t[..|digits|] == digits;
  }

  lemma AtoiReads(pad: string, digits: string, rest: string)
    requires forall k :: 0 <= k < |pad| ==> IsSpace(pad[k])
    requires digits != "" && forall k :: 0 <= k < |digits| ==> IsDigit(digits[k])
    requires rest == "" || !IsDigit(rest[0])
    ensures Atoi(pad + (digits + rest)) == Value(digits)
  {
    hide SignedValue, Value;
    var t := digits + rest;
    var s := pad + t;
    assert IsDigit(digits[0]) && s[|pad|] == digits[0];
    SpanIs(s, IsSpace, |pad|);
    assert s[|pad|..] == t;
    DigitsThen(digits, rest);
  }

  lemma DayTextReads(day: nat, rest: string)
    requires day < 100 && rest != "" && !IsDigit(rest[0])
    ensures Atoi(DayText(day) + rest) == day
  {
    hide Atoi, SignedValue, DigitsValue;
    if day < 10 {
      var c := DigitChar(day);
      OneDigit(c, rest);
      Signed(c, rest);
      AtoiAt(" ", [c] + rest);
      assert DayText(day) + rest == " " + ([c] + rest);
    } else {
      var c, d := D2(day)[0], D2(day)[1];
      TwoDigits(c, d, rest);
      Signed(c, [d] + rest);
      AtoiAt("", [c, d] + rest);
      assert DayText(day) + rest == "" + ([c, d] + rest) && [c, d] + rest == [c] + ([d] + rest);
    }
  }

  lemma MonthOfName(month: nat, rest: string)
    requires 1 <= month <= 12
    ensures MonthOf(MonthName(month) + rest) == month
  {
    var name := MonthName(month);
    var s := name + rest;
    assert s[0] == name[0] && s[1] == name[1] && s[2] == name[2];
  }

  lemma ClockColumns(h: string, m: string, s: string, rest: string)
    requires |h| == |m| == |s| == 2 && TwoDigitsAt(h, 0) && TwoDigitsAt(m, 0) && TwoDigitsAt(s, 0)
    ensures ReadClock(h + ":" + m + ":" + s + rest) == Some(Clock(Two(h, 0), Two(m, 0), Two(s, 0)))
  {
    var t := h + ":" + m + ":" + s + rest;
    assert t[0] == h[0] && t[1] == h[1] && t[2] == ':' && t[3] == m[0] && t[4] == m[1];
    assert t[5] == ':' && t[6] == s[0] && t[7] == s[1];
  }

  lemma ClockReads(d: Stamp, rest: string)
    requires Readable(d)
    ensures ReadClock(ClockText(d) + rest) == Some(Clock(d.hour, d.minute, d.second))
  {
    ClockColumns(D2(d.hour), D2(d.minute), D2(d.second), rest);
  }

  lemma Columns(name: string, day: string, clock: string, rest: string)
    requires |name| == 3 && |day| == 2 && |clock| == 8
    ensures var s := name + " " + day + " " + clock + rest;
            s == name + s[3..] && s[3] == ' ' && s[4..] == day + (" " + (clock + rest)) && s[6] == ' '
              && s[7..] == clock + rest
  {
  }

  /** Every timestamp written as the RFC asks is read back, whatever follows it on the line. */
  lemma DateRoundTrip(d: Stamp, rest: string)
    requires Readable(d)
    ensures ReadDate(RenderDate(d) + rest) == Some(d)
  {
    var s := RenderDate(d) + rest;
    Columns(MonthName(d.month), DayText(d.day), ClockText(d), rest);
    MonthOfName(d.month, s[3..]);
    DayTextReads(d.day, " " + (ClockText(d) + rest));
    ClockReads(d, rest);
  }

  lemma RenderedDateReads(d: Stamp)
    requires Readable(d)
    ensures ReadDate(RenderDate(d)) == Some(d)
  {
    DateRoundTrip(d, "");
    NoTail(RenderDate(d));
  }

  /** Numeric order on (month, day, hour, minute, second). */
  predicate Earlier(a: Stamp, b: Stamp) {
    a.month < b.month || (a.month == b.month && (
      a.day < b.day || (a.day == b.day && (
        a.hour < b.hour || (a.hour == b.hour && (
          a.minute < b.minute || (a.minute == b.minute && a.second < b.second)))))))
  }

  lemma {:induction false} LessHead(c: char, d: char, x: string, y: string)
    ensures Less([c] + x, [d] + y) == (c < d || (c == d && Less(x, y)))
  {
    assert ([c] + x)[1..] == x && ([d] + y)[1..] == y;
  }

  lemma {:induction false} D2Order(a: nat, b: nat, x: string, y: string)
    requires a < 100 && b < 100
    ensures Less(D2(a) + x, D2(b) + y) == (a < b || (a == b && Less(x, y)))
  {
    hide Less;
    var a1, a0, b1, b0 := DigitChar(a / 10), DigitChar(a % 10), DigitChar(b / 10), DigitChar(b % 10);
    assert D2(a) + x == [a1] + ([a0] + x) && D2(b) + y == [b1] + ([b0] + y);
    LessHead(a1, b1, [a0] + x, [b0] + y);
    LessHead(a0, b0, x, y);
  }

  lemma Nested(mo: string, da: string, ho: string, mi: string, se: string)
    ensures mo + " " + da + " " + ho + ":" + mi + ":" + se
         == mo + (" " + (da + (" " + (ho + (":" + (mi + (":" + se)))))))
  {
    Assoc(mo + " " + da + " " + ho + ":" + mi, ":", se);
    Assoc(mo + " " + da + " " + ho + ":", mi, ":" + se);
    Assoc(mo + " " + da + " " + ho, ":", mi + (":" + se));
    Assoc(mo + " " + da + " ", ho, ":" + (mi + (":" + se)));
    Assoc(mo + " " + da, " ", ho + (":" + (mi + (":" + se))));
    Assoc(mo + " ", da, " " + (ho + (":" + (mi + (":" + se)))));
    Assoc(mo, " ", da + (" " + (ho + (":" + (mi + (":" + se))))));
  }

  lemma PrintDateNested(d: Stamp)
    requires Readable(d)
    ensures PrintDate(d)
          == D2(d.month) + (" " + (D2(d.day) + (" " + (D2(d.hour) + (":" + (D2(d.minute) + (":" + D2(d.second))))))))
  {
    hide D2;
    Nested(D2(d.month), D2(d.day), D2(d.hour), D2(d.minute), D2(d.second));
    assert PrintDate(d)
        == D2(d.month) + " " + D2(d.day) + " " + D2(d.hour) + ":" + D2(d.minute) + ":" + D2(d.second);
  }

  /** The server compares printed dates with `strcmp`; that is the order of the fields. */
  lemma PrintedOrder(a: Stamp, b: Stamp)
    requires Readable(a) && Readable(b)
    ensures Less(PrintDate(a), PrintDate(b)) == Earlier(a, b)
  {
    hide PrintDate, D2, Less;
    PrintDateNested(a);
    PrintDateNested(b);
    var a5, b5 := D2(a.second), D2(b.second);
    var a4, b4 := D2(a.minute) + (":" + a5), D2(b.minute) + (":" + b5);
    var a3, b3 := D2(a.hour) + (":" + a4), D2(b.hour) + (":" + b4);
    var a2, b2 := D2(a.day) + (" " + a3), D2(b.day) + (" " + b3);
    D2Order(a.month, b.month, " " + a2, " " + b2);
    LessPrefix(" ", a2, b2);
    D2Order(a.day, b.day, " " + a3, " " + b3);
    LessPrefix(" ", a3, b3);
    D2Order(a.hour, b.hour, ":" + a4, ":" + b4);
    LessPrefix(":", a4, b4);
    D2Order(a.minute, b.minute, ":" + a5, ":" + b5);
    LessPrefix(":", a5, b5);
    NoTail(a5);
    NoTail(b5);
    D2Order(a.second, b.second, "", "");
    LessTotal("", "");
  }

  /** Different dates print differently. */
  lemma PrintedInjective(a: Stamp, b: Stamp)
    requires Readable(a) && Readable(b) && PrintDate(a) == PrintDate(b)
    ensures a == b
  {
    hide PrintDate, Less;
    PrintedOrder(a, b);
    PrintedOrder(b, a);
    LessTotal(PrintDate(a), PrintDate(b));
  }

  // ----- the calendar behind `localtime` and `strftime`

  /** Days in front of each month.  `strptime` is given no year, so the year is 1900, not a leap year. */
  const DAYS_BEFORE: seq<nat> := [0, 31, 59, 90, 120, 151, 181, 212, 243, 273, 304, 334, 365]

  const YEAR: nat := 365 * 86400

  function MonthOfDay(day: nat, month: nat): (m: nat)
    requires 1 <= month <= 12 && DAYS_BEFORE[month - 1] <= day < 365
    ensures month <= m <= 12 && DAYS_BEFORE[m - 1] <= day < DAYS_BEFORE[m]
    decreases 12 - month
  {
    if month == 12 || day < DAYS_BEFORE[month] then month else MonthOfDay(day, month + 1)
  }

  /** The fields of the `t`-th second of the year. */
  function StampOf(t: nat): (d: Stamp)
    requires t < YEAR
    ensures Readable(d)
  {
    var day := t / 86400;
    var second := t % 86400;
    var m := MonthOfDay(day, 1);
    Stamp(m, day - DAYS_BEFORE[m - 1] + 1, second / 3600, second % 3600 / 60, second % 3600 % 60)
  }

  function Format(t: nat): string
    requires t < YEAR
  {
    PrintDate(StampOf(t))
  }

  lemma MonthsAscend(m: nat, n: nat)
    requires 1 <= m < n <= 12
    ensures DAYS_BEFORE[m] <= DAYS_BEFORE[n - 1]
  {
  }

  lemma HourOrder(s: nat, t: nat)
    requires s < t
    ensures s / 3600 < t / 3600 || (s / 3600 == t / 3600 && s % 3600 < t % 3600)
  {
  }

  lemma MinuteOrder(s: nat, t: nat)
    requires s < t
    ensures s / 60 < t / 60 || (s / 60 == t / 60 && s % 60 < t % 60)
  {
  }

  lemma ClockOrder(s: nat, t: nat)
    requires s < t
    ensures s / 3600 < t / 3600 || (s / 3600 == t / 3600 && (s % 3600 / 60 < t % 3600 / 60
            || (s % 3600 / 60 == t % 3600 / 60 && s % 3600 % 60 < t % 3600 % 60)))
  {
    HourOrder(s, t);
    if s / 3600 == t / 3600 { MinuteOrder(s % 3600, t % 3600); }
  }

  lemma StampOrder(t: nat, u: nat)
    requires t < u < YEAR
    ensures Earlier(StampOf(t), StampOf(u))
  {
    var d, e := t / 86400, u / 86400;
    if d == e {
      ClockOrder(t % 86400, u % 86400);
    } else {
      var m, n := MonthOfDay(d, 1), MonthOfDay(e, 1);
      if n < m { MonthsAscend(n, m); }
    }
  }

  /** Formatting keeps the order of times: the later second has the greater text. */
  lemma FormatOrder(t: nat, u: nat)
    requires t < YEAR && u < YEAR
    ensures Less(Format(t), Format(u)) == (t < u)
    ensures Format(t) == Format(u) ==> t == u
  {
    hide PrintDate, Less, StampOf, Earlier;
    PrintedOrder(StampOf(t), StampOf(u));
    LessTotal(Format(t), Format(u));
    PrintedOrder(StampOf(u), StampOf(t));
    if t < u {
      StampOrder(t, u);
    } else if u < t {
      StampOrder(u, t);
    }
  }

  // ----- the calendar by the lengths of its months

  function DaysIn(month: nat): nat {
    if month == 2 then 28 else if month == 4 || month == 6 || month == 9 || month == 11 then 30 else 31
  }

  /** The days of the months in front. */
  function DaysTo(month: nat): nat {
    if month <= 1 then 0 else DaysTo(month - 1) + DaysIn(month - 1)
  }

  predicate CalendarDate(d: Stamp) {
    1 <= d.month <= 12 && 1 <= d.day <= DaysIn(d.month) && d.hour < 24 && d.minute < 60 && d.second < 60
  }

  /** The second of the year at which a date falls. */
  function SecondOf(d: Stamp): nat
    requires CalendarDate(d)
  {
    (DaysTo(d.month) + d.day - 1) * 86400 + d.hour * 3600 + d.minute * 60 + d.second
  }

  lemma DaysToIs(month: nat)
    requires 1 <= month <= 12
    ensures DAYS_BEFORE[month - 1] == DaysTo(month) && DAYS_BEFORE[month] == DaysTo(month) + DaysIn(month)
  {
    assert DaysTo(1) == 0 && DaysTo(2) == 31 && DaysTo(3) == 59 && DaysTo(4) == 90;
    assert DaysTo(5) == 120 && DaysTo(6) == 151 && DaysTo(7) == 181 && DaysTo(8) == 212;
    assert DaysTo(9) == 243 && DaysTo(10) == 273 && DaysTo(11) == 304 && DaysTo(12) == 334;
  }

  lemma MonthIs(day: nat, m: nat, n: nat)
    requires 1 <= m <= 12 && 1 <= n <= 12 && day < 365
    requires DAYS_BEFORE[m - 1] <= day < DAYS_BEFORE[m] && DAYS_BEFORE[n - 1] <= day < DAYS_BEFORE[n]
    ensures m == n
  {
    if m < n { MonthsAscend(m, n); }
    if n < m { MonthsAscend(n, m); }
  }

  lemma ClockParts(hour: nat, minute: nat, second: nat)
    requires hour < 24 && minute < 60 && second < 60
    ensures var t := hour * 3600 + minute * 60 + second;
            t < 86400 && t / 3600 == hour && t % 3600 / 60 == minute && t % 3600 % 60 == second
  {
  }

  lemma DayParts(day: nat, t: nat)
    requires t < 86400
    ensures (day * 86400 + t) / 86400 == day && (day * 86400 + t) % 86400 == t
  {
  }

  /** The fields computed for the second of a date are that date. */
  lemma StampOfSecond(d: Stamp)
    requires CalendarDate(d)
    ensures SecondOf(d) < YEAR && StampOf(SecondOf(d)) == d
  {
    hide DaysTo, DaysIn, MonthOfDay, StampOf;
    var day, t := DaysTo(d.month) + d.day - 1, d.hour * 3600 + d.minute * 60 + d.second;
    DaysToIs(d.month);
    DaysEnd(d.month);
    ClockParts(d.hour, d.minute, d.second);
    StampParts(day, t);
    MonthIs(day, MonthOfDay(day, 1), d.month);
  }

  lemma StampParts(day: nat, t: nat)
    requires day < 365 && t < 86400
    ensures day * 86400 + t < YEAR
    ensures var m := MonthOfDay(day, 1);
            StampOf(day * 86400 + t)
            == Stamp(m, day - DAYS_BEFORE[m - 1] + 1, t / 3600, t % 3600 / 60, t % 3600 % 60)
  {
    hide MonthOfDay;
    DayParts(day, t);
  }

  lemma DaysEnd(month: nat)
    requires 1 <= month <= 12
    ensures DAYS_BEFORE[month] <= 365
  {
  }

  /** Every second of the year is that of a date. */
  lemma SecondOfStamp(t: nat)
    requires t < YEAR
    ensures CalendarDate(StampOf(t)) && SecondOf(StampOf(t)) == t
  {
    hide DaysTo, DaysIn, MonthOfDay;
    var m := MonthOfDay(t / 86400, 1);
    DaysToIs(m);
    ClockOf(t % 86400);
  }

  lemma ClockOf(t: nat)
    requires t < 86400
    ensures t / 3600 < 24 && t % 3600 / 60 < 60 && t / 3600 * 3600 + t % 3600 / 60 * 60 + t % 3600 % 60 == t
  {
  }

  // ----- every text that is accepted as a date

  /** What `atoi` makes of two day columns with a blank and an hour behind them. */
  function DayRead(x: char, y: char, hour: nat): int {
    if x as int == 32 || 9 <= x as int <= 13 then
      if y as int == 32 || 9 <= y as int <= 13 then hour else if 48 <= y as int <= 57 then y as int - 48 else 0
    else if 48 <= x as int <= 57 then
      if 48 <= y as int <= 57 then (x as int - 48) * 10 + (y as int - 48) else x as int - 48
    else if 48 <= y as int <= 57 then
      if x == '-' then 48 - y as int else if x == '+' then y as int - 48 else 0
    else 0
  }

  lemma {:induction false} OneDigit(c: char, rest: string)
    requires IsDigit(c) && (rest == "" || !IsDigit(rest[0]))
    ensures DigitsValue([c] + rest) == DigitValue(c)
  {
    SpanIs([c] + rest, IsDigit, 1);
    assert ([c] + rest)[..1] == [c] && [c][..0] == "";
    assert Value([c]) == DigitValue(c);
  }

  lemma {:induction false} TwoDigits(c: char, d: char, rest: string)
    requires IsDigit(c) && IsDigit(d) && (rest == "" || !IsDigit(rest[0]))
    ensures DigitsValue([c, d] + rest) == DigitValue(c) * 10 + DigitValue(d)
  {
    var t := [c, d] + rest;
    SpanIs(t, IsDigit, 2);
    assert t[..2] == [c, d] && [c, d][..1] == [c] && [c][..0] == "";
    assert Value([c]) == DigitValue(c);
  }

  lemma {:induction false} NoDigits(rest: string)
    requires rest == "" || !IsDigit(rest[0])
    ensures DigitsValue(rest) == 0
  {
    assert rest[..0] == "";
  }

  lemma {:induction false} AtoiAt(pad: string, t: string)
    requires (forall k :: 0 <= k < |pad| ==> IsSpace(pad[k])) && (t == "" || !IsSpace(t[0]))
    ensures Atoi(pad + t) == SignedValue(t)
  {
    hide SignedValue;
    SpanIs(pad + t, IsSpace, |pad|);
    assert (pad + t)[|pad|..] == t;
  }

  lemma {:induction false} Signed(sign: char, rest: string)
    ensures sign == '-' ==> SignedValue([sign] + rest) == -(DigitsValue(rest) as int)
    ensures sign == '+' ==> SignedValue([sign] + rest) == DigitsValue(rest)
    ensures sign != '-' && sign != '+' ==> SignedValue([sign] + rest) == DigitsValue([sign] + rest)
  {
    hide DigitsValue;
    assert ([sign] + rest)[1..] == rest;
  }

  lemma {:induction false} DayColumns(x: char, y: char, h: string, rest: string)
    requires |h| == 2 && IsDigit(h[0]) && IsDigit(h[1])
    ensures Atoi([x, y] + (" " + (h + (":" + rest)))) == DayRead(x, y, DigitValue(h[0]) * 10 + DigitValue(h[1]))
  {
    hide DigitsValue, SignedValue, Atoi;
    var behind := ":" + rest;
    var clock := h + behind;
    var tail := " " + clock;
    var all := [x, y] + tail;
    assert h == [h[0], h[1]] && clock == [h[0]] + ([h[1]] + behind);
    if IsSpace(x) && IsSpace(y) {
      assert all == [x, y, ' '] + clock;
      AtoiAt([x, y, ' '], clock);
      Signed(h[0], [h[1]] + behind);
      TwoDigits(h[0], h[1], behind);
    } else if IsSpace(x) {
      assert all == [x] + ([y] + tail);
      AtoiAt([x], [y] + tail);
      OneColumn(y, tail);
    } else {
      assert all == "" + ([x] + ([y] + tail));
      AtoiAt("", [x] + ([y] + tail));
      Signed(x, [y] + tail);
      if IsDigit(x) && IsDigit(y) {
        assert [x] + ([y] + tail) == [x, y] + tail;
        TwoDigits(x, y, tail);
      } else if IsDigit(x) {
        OneDigit(x, [y] + tail);
      } else {
        if IsDigit(y) { OneDigit(y, tail); } else { NoDigits([y] + tail); }
        NoDigits([x] + ([y] + tail));
      }
    }
  }

  /** A column with a blank behind it. */
  lemma {:induction false} OneColumn(y: char, tail: string)
    requires tail != "" && tail[0] == ' '
    ensures SignedValue([y] + tail) == if IsDigit(y) then DigitValue(y) else 0
  {
    hide DigitsValue;
    Signed(y, tail);
    NoDigits(tail);
    if IsDigit(y) { OneDigit(y, tail); } else { NoDigits([y] + tail); }
  }

  predicate TwoDigitText(s: string) {
    |s| == 2 && 48 <= s[0] as int <= 57 && 48 <= s[1] as int <= 57
  }

  function TwoDigitValue(s: string): nat
    requires TwoDigitText(s)
  {
    (s[0] as int - 48) * 10 + (s[1] as int - 48)
  }

  function DateLine(month: nat, x: char, y: char, h: string, m: string, s: string): string
    requires 1 <= month <= 12
  {
    MonthName(month) + " " + [x, y] + " " + h + ":" + m + ":" + s
  }

  /** Month name, two columns, and a clock in digits: it is a date exactly when the columns are read as a day up
      to 31, with or without a zero in front, and it is read as these fields. */
  lemma {:induction false} DateLineReads(month: nat, x: char, y: char, h: string, m: string, s: string, rest: string)
    requires 1 <= month <= 12 && TwoDigitText(h) && TwoDigitText(m) && TwoDigitText(s)
    ensures var day := DayRead(x, y, TwoDigitValue(h));
            ReadDate(DateLine(month, x, y, h, m, s) + rest) ==
              if 0 <= day <= 31 then Some(Stamp(month, day, TwoDigitValue(h), TwoDigitValue(m), TwoDigitValue(s)))
              else None
  {
    hide Atoi, MonthOf, ReadClock, MonthName, DayRead;
    var clock := h + ":" + m + ":" + s;
    var all := MonthName(month) + " " + [x, y] + " " + clock + rest;
    DateLineIs(month, x, y, h, m, s, rest);
    Columns(MonthName(month), [x, y], clock, rest);
    MonthOfName(month, all[3..]);
    ClockColumns(h, m, s, rest);
    assert clock + rest == h + (":" + (m + ":" + s + rest));
    DayColumns(x, y, h, m + ":" + s + rest);
  }

  /** Nothing else is a date: its first fifteen characters are a month name, two columns and a clock. */
  lemma DateLineOnly(t: string)
    requires ReadDate(t).Some?
    ensures |t| >= 15
    ensures exists month, x, y, h, m, s ::
              1 <= month <= 12 && TwoDigitText(h) && TwoDigitText(m) && TwoDigitText(s)
              && t[..15] == DateLine(month, x, y, h, m, s)
  {
    hide Atoi;
    var month := MonthOf(t);
    MonthStarts(t);
    ClockStarts(t[7..]);
    var clock := t[7..];
    var h, m, s := clock[0..2], clock[3..5], clock[6..8];
    FifteenColumns(t);
    DateLineIs(month, t[4], t[5], h, m, s, "");
    NoTail(DateLine(month, t[4], t[5], h, m, s));
    NoTail(MonthName(month) + " " + [t[4], t[5]] + " " + (h + ":" + m + ":" + s));
  }

  lemma MonthStarts(t: string)
    requires MonthOf(t) != 0
    ensures |t| >= 3 && t[..3] == MonthName(MonthOf(t))
  {
  }

  lemma ClockStarts(t: string)
    requires ReadClock(t).Some?
    ensures |t| >= 8 && t[2] == ':' && t[5] == ':'
    ensures TwoDigitText(t[0..2]) && TwoDigitText(t[3..5]) && TwoDigitText(t[6..8])
  {
  }

  lemma FifteenColumns(t: string)
    requires |t| >= 15 && t[3] == ' ' && t[6] == ' ' && t[9] == ':' && t[12] == ':'
    ensures var clock := t[7..];
            t[..15] == t[..3] + " " + [t[4], t[5]] + " " + (clock[0..2] + ":" + clock[3..5] + ":" + clock[6..8])
  {
  }

  lemma DateLineIs(month: nat, x: char, y: char, h: string, m: string, s: string, rest: string)
    requires 1 <= month <= 12
    ensures DateLine(month, x, y, h, m, s) + rest
         == MonthName(month) + " " + [x, y] + " " + (h + ":" + m + ":" + s) + rest
  {
    hide MonthName;
    var a := MonthName(month) + " " + [x, y] + " ";
    Assoc(a, h, ":");
    Assoc(a, h + ":", m);
    Assoc(a, h + ":" + m, ":");
    Assoc(a, h + ":" + m + ":", s);
  }

  /** The printed form by its columns. */
  lemma PrintedColumns(d: Stamp)
    requires Readable(d)
    ensures var s := PrintDate(d);
            s[2] == s[5] == ' ' && s[8] == s[11] == ':'
            && TwoDigitText(s[0..2]) && TwoDigitValue(s[0..2]) == d.month
            && TwoDigitText(s[3..5]) && TwoDigitValue(s[3..5]) == d.day
            && TwoDigitText(s[6..8]) && TwoDigitValue(s[6..8]) == d.hour
            && TwoDigitText(s[9..11]) && TwoDigitValue(s[9..11]) == d.minute
            && TwoDigitText(s[12..14]) && TwoDigitValue(s[12..14]) == d.second
  {
    D2Digits(d.month);
    D2Digits(d.day);
    D2Digits(d.hour);
    D2Digits(d.minute);
    D2Digits(d.second);
    hide D2;
    var s := PrintDate(d);
    assert s[0..2] == D2(d.month) && s[3..5] == D2(d.day) && s[6..8] == D2(d.hour);
    assert s[9..11] == D2(d.minute) && s[12..14] == D2(d.second);
  }

  lemma D2Digits(n: nat)
    requires n < 100
    ensures TwoDigitText(D2(n)) && TwoDigitValue(D2(n)) == n
  {
  }
}
