/** The graph command: a range of time cut into samples, each counted by two queries. */
module Graph {
  import opened CStrings
  import opened Conditions
  import opened Dates
  import opened CountQuery
  import opened LogQueries

  const STAMP := "__LOG_TIMESTAMP"

  // ----- boundaries

  /** Boundary `i` of `samples` samples over `total` seconds: quotient and remainder of the division,
      the fractions of the earlier samples carried as whole seconds. */
  function Boundary(start: nat, total: nat, samples: nat, i: nat): nat
    requires samples >= 1
  {
    if i == 0 then start
    else start + i * (total / samples) + Whole((i - 1) * (total % samples), samples)
  }

  function Whole(x: nat, n: nat): (q: nat)
    requires n >= 1
    ensures q == x / n
  {
    x / n
  }

  /** The carried fraction when sample `i` starts, in units of 1/samples of a second. */
  function RestAt(total: nat, samples: nat, i: nat): nat
    requires samples >= 1
  {
    if i == 0 then 0 else (i - 1) * (total % samples) % samples + total % samples
  }

  lemma DivModOf(x: nat, n: nat)
    requires n >= 1
    ensures x == x / n * n + x % n && x % n < n
  {
  }

  lemma Distribute(a: nat, b: nat, n: nat)
    ensures (a + b) * n == a * n + b * n
  {
  }

  lemma CarryStep(a: nat, r: nat, n: nat)
    requires n >= 1
    ensures (a + r) / n == a / n + (a % n + r) / n && (a + r) % n == (a % n + r) % n
  {
    DivModOf(a, n);
    DivModOf(a % n + r, n);
    Distribute(a / n, (a % n + r) / n, n);
    DivModIs(a + r, n, a / n + (a % n + r) / n, (a % n + r) % n);
  }

  lemma DivModIs(x: nat, n: nat, q: nat, k: nat)
    requires n >= 1 && x == q * n + k && k < n
    ensures x / n == q && x % n == k
  {
    var p, j := x / n, x % n;
    assert x == p * n + j;
    assert (p + 1) * n == p * n + n && (q + 1) * n == q * n + n;
    if p < q { Monotone(p + 1, q, n); }
    if q < p { Monotone(q + 1, p, n); }
  }

  lemma Monotone(a: nat, b: nat, n: nat)
    requires a <= b
    ensures a * n <= b * n
  {
  }

  /** One turn of the loop: whole seconds of the fraction move the boundary, the rest is carried on. */
  lemma BoundaryStep(start: nat, total: nat, samples: nat, i: nat)
    requires samples >= 1
    ensures var rest := RestAt(total, samples, i);
            Boundary(start, total, samples, i + 1)
              == Boundary(start, total, samples, i) + total / samples + rest / samples
            && RestAt(total, samples, i + 1) == rest % samples + total % samples
  {
    var q, r := total / samples, total % samples;
    if i == 0 {
      assert 0 * r == 0;
    } else {
      var a := (i - 1) * r;
      assert a + r == i * r;
      assert (i + 1) * q == i * q + q;
      CarryStep(a, r, samples);
    }
  }

  /** Every sample is a whole number of seconds wide, the quotient or one more. */
  lemma Widths(start: nat, total: nat, samples: nat, i: nat)
    requires samples >= 1
    ensures var w := Boundary(start, total, samples, i + 1) - Boundary(start, total, samples, i);
            w == total / samples || w == total / samples + 1
  {
    hide Boundary;
    BoundaryStep(start, total, samples, i);
    RestBelowTwo(total, samples, i);
  }

  lemma RestBelowTwo(total: nat, samples: nat, i: nat)
    requires samples >= 1
    ensures RestAt(total, samples, i) / samples <= 1
  {
    var rest := RestAt(total, samples, i);
    assert rest < 2 * samples;
    var p := rest / samples;
    assert rest == p * samples + rest % samples;
    if p >= 2 { Monotone(2, p, samples); }
  }

  /** The correction of the last boundary never runs: the samples end one second early unless the range
      divides evenly. */
  lemma LastBoundary(start: nat, total: nat, samples: nat)
    requires samples >= 1
    ensures Boundary(start, total, samples, samples) == start + total - if total % samples == 0 then 0 else 1
  {
    var q, r, n := total / samples, total % samples, samples;
    DivModOf(total, n);
    assert n * q == q * n;
    LastWhole(r, n);
  }

  lemma LastWhole(r: nat, n: nat)
    requires r < n
    ensures Whole((n - 1) * r, n) == if r == 0 then 0 else r - 1
  {
    if r == 0 {
      assert (n - 1) * 0 == 0;
    } else {
      assert (n - 1) * r == n * r - r;
      assert (r - 1) * n == r * n - n;
      DivModIs((n - 1) * r, n, r - 1, n - r);
    }
  }

  lemma {:induction false} BoundariesAscend(start: nat, total: nat, samples: nat, i: nat, j: nat)
    requires samples >= 1 && i <= j
    ensures Boundary(start, total, samples, i) <= Boundary(start, total, samples, j)
    decreases j - i
  {
    hide Boundary;
    if i < j {
      Widths(start, total, samples, i);
      BoundariesAscend(start, total, samples, i + 1, j);
    }
  }

  // ----- the queries of a sample

  function Between(from: string, to: string): seq<Cond> {
    [Cond(STAMP, Above, from), Cond(STAMP, Below, to)]
  }

  function Exactly(at: string): seq<Cond> {
    [Cond(STAMP, Equal, at)]
  }

  /** The conditions appended to the user's, as the client prints them. */
  function BetweenText(from: string, to: string): string {
    ABOVE_OPEN + from + "\"" + BELOW_OPEN + to + "\""
  }

  const ABOVE_OPEN := "&__LOG_TIMESTAMP>\""
  const BELOW_OPEN := "&__LOG_TIMESTAMP<\""
  const EQUAL_OPEN := "&__LOG_TIMESTAMP=\""

  function ExactlyText(at: string): string {
    EQUAL_OPEN + at + "\""
  }

  /** The text of boundary `i`. */
  function StampText(start: nat, total: nat, samples: nat, i: nat): string
    requires samples >= 1 && i <= samples && start + total < YEAR
  {
    BoundaryInYear(start, total, samples, i);
    Format(Boundary(start, total, samples, i))
  }

  lemma BoundaryInYear(start: nat, total: nat, samples: nat, i: nat)
    requires samples >= 1 && i <= samples && start + total < YEAR
    ensures Boundary(start, total, samples, i) < YEAR
  {
    hide Boundary;
    BoundariesAscend(start, total, samples, i, samples);
    LastBoundary(start, total, samples);
  }

  /** Query `j` of the command: sample `j / 2` between its boundaries, or at its first boundary. */
  function QueryText(user: string, start: nat, total: nat, samples: nat, j: nat): string
    requires samples >= 1 && j < 2 * samples && start + total < YEAR
  {
    var from := StampText(start, total, samples, j / 2);
    user + if j % 2 == 0 then BetweenText(from, StampText(start, total, samples, j / 2 + 1)) else ExactlyText(from)
  }

  /** What is asked for a sample, in full. */
  lemma SampleQueries(user: string, start: nat, total: nat, samples: nat, i: nat)
    requires samples >= 1 && i < samples && start + total < YEAR
    ensures var from, to := StampText(start, total, samples, i), StampText(start, total, samples, i + 1);
            QueryText(user, start, total, samples, 2 * i)
              == user + "&__LOG_TIMESTAMP>\"" + from + "\"&__LOG_TIMESTAMP<\"" + to + "\""
            && QueryText(user, start, total, samples, 2 * i + 1) == user + "&__LOG_TIMESTAMP=\"" + from + "\""
  {
    hide StampText, BetweenText, ExactlyText;
    assert 2 * i / 2 == i && (2 * i + 1) / 2 == i && 2 * i % 2 == 0 && (2 * i + 1) % 2 == 1;
    AskedTexts(user, StampText(start, total, samples, i), StampText(start, total, samples, i + 1));
  }

  lemma AskedTexts(user: string, from: string, to: string)
    ensures user + BetweenText(from, to) == user + "&__LOG_TIMESTAMP>\"" + from + "\"&__LOG_TIMESTAMP<\"" + to + "\""
    ensures user + ExactlyText(from) == user + "&__LOG_TIMESTAMP=\"" + from + "\""
  {
    var a, b, e, q := "&__LOG_TIMESTAMP>\"", "\"&__LOG_TIMESTAMP<\"", "&__LOG_TIMESTAMP=\"", "\"";
    assert b == q + BELOW_OPEN;
    SixTexts(user, a, from, q, BELOW_OPEN, to);
    Assoc(user + e, from, q);
    Assoc(user, e, from + q);
    Assoc(e, from, q);
  }

  lemma SixTexts(user: string, a: string, from: string, q: string, b: string, to: string)
    ensures user + (a + from + q + b + to + q) == user + a + from + (q + b) + to + q
  {
    Assoc(user, a + from + q + b + to, q);
    Assoc(user, a + from + q + b, to);
    Assoc(user, a + from + q, b);
    Assoc(user, a + from, q);
    Assoc(user, a, from);
    Assoc(user + a + from, q, b);
  }

  /** The number shown for a sample after the answers to its two queries; an answer that is no number
      leaves a negative mark. */
  function Shown(first: Option<nat>, second: Option<nat>): int {
    var mark := if first.None? then -10 else first.value as int;
    if second.None? then -10 else mark + second.value
  }

  /** What a cell tells: both answers together, or a mark.  A refusal of the first query alone is hidden when
      the second one counts ten entries or more. */
  lemma MarkShows(m: nat, n: nat)
    ensures Shown(Some(m), Some(n)) == m + n
    ensures Shown(Some(m), None) == -10 && Shown(None, None) == -10
    ensures Shown(None, Some(n)) < 0 <==> n < 10
  {
  }

  // ----- the command

  /** The boundary loop: the texts of all queries. */
  method PrepareQueries(user: string, start: nat, total: nat, samples: nat) returns (queries: array<string>)
    requires samples >= 1 && start + total < YEAR
    ensures fresh(queries) && queries.Length == 2 * samples
    ensures forall j :: 0 <= j < 2 * samples ==> queries[j] == QueryText(user, start, total, samples, j)
  {
    hide Boundary, RestAt, Format, BetweenText, ExactlyText;
    queries := new string[2 * samples](_ => "");
    var interval := total / samples;
    var fraction := total % samples;
    var t2 := start;
    var rest := 0;
    StartsThere(start, total, samples);
    for i := 0 to samples
      invariant t2 == Boundary(start, total, samples, i) && rest == RestAt(total, samples, i)
      invariant forall j :: 0 <= j < 2 * i ==> queries[j] == QueryText(user, start, total, samples, j)
    {
      BoundaryStep(start, total, samples, i);
      BoundaryInYear(start, total, samples, i);
      BoundaryInYear(start, total, samples, i + 1);
      var t1 := t2 + interval + rest / samples;
      if i == samples && rest > 0 {
        t1 := t1 + 1;
      }
      rest := rest % samples;
      rest := rest + fraction;
      queries[2 * i] := user + BetweenText(Format(t2), Format(t1));
      queries[2 * i + 1] := user + ExactlyText(Format(t2));
      assert 2 * i / 2 == i && (2 * i + 1) / 2 == i && 2 * i % 2 == 0 && (2 * i + 1) % 2 == 1;
      t2 := t1;
    }
  }

  lemma StartsThere(start: nat, total: nat, samples: nat)
    requires samples >= 1
    ensures Boundary(start, total, samples, 0) == start && RestAt(total, samples, 0) == 0
  {
  }

  ghost function AnswerTo(content: string, user: string, start: nat, total: nat, samples: nat, j: nat): Option<nat>
    requires samples >= 1 && j < 2 * samples && start + total < YEAR
  {
    Answer(content, QueryText(user, start, total, samples, j))
  }

  ghost function TopAnswerTo(content: string, user: string, start: nat, total: nat, samples: nat, j: nat): Option<nat>
    requires samples >= 1 && j < 2 * samples && start + total < YEAR
  {
    TopAnswer(content, QueryText(user, start, total, samples, j))
  }

  ghost function SampleCount(content: string, user: string, start: nat, total: nat, samples: nat, i: nat): int
    requires samples >= 1 && i < samples && start + total < YEAR
  {
    Shown(AnswerTo(content, user, start, total, samples, 2 * i),
      AnswerTo(content, user, start, total, samples, 2 * i + 1))
  }

  /** The highest number a sample can show. */
  ghost function SampleTop(content: string, user: string, start: nat, total: nat, samples: nat, i: nat): int
    requires samples >= 1 && i < samples && start + total < YEAR
  {
    Shown(TopAnswerTo(content, user, start, total, samples, 2 * i),
      TopAnswerTo(content, user, start, total, samples, 2 * i + 1))
  }

  /** One of the first `n` queries is refused. */
  ghost predicate SomeRefused(content: string, user: string, start: nat, total: nat, samples: nat, n: nat)
    requires samples >= 1 && n <= 2 * samples && start + total < YEAR
  {
    exists j :: 0 <= j < n && AnswerTo(content, user, start, total, samples, j).None?
  }

  lemma RefusedStep(content: string, user: string, start: nat, total: nat, samples: nat, n: nat)
    requires samples >= 1 && n < 2 * samples && start + total < YEAR
    ensures SomeRefused(content, user, start, total, samples, n + 1) <==>
              SomeRefused(content, user, start, total, samples, n)
              || AnswerTo(content, user, start, total, samples, n).None?
  {
    hide AnswerTo;
    if AnswerTo(content, user, start, total, samples, n).None? {
    } else if SomeRefused(content, user, start, total, samples, n + 1) {
      var j :| 0 <= j < n + 1 && AnswerTo(content, user, start, total, samples, j).None?;
      assert j < n;
    }
  }

  lemma NoneRefusedYet(content: string, user: string, start: nat, total: nat, samples: nat)
    requires samples >= 1 && start + total < YEAR
    ensures !SomeRefused(content, user, start, total, samples, 0)
  {
    hide AnswerTo;
  }

  /** What is in the cell of sample `k` when the answers in front of `j` have been added. */
  function Cell(first: Option<nat>, second: Option<nat>, k: nat, j: nat): int {
    if j <= 2 * k then 0 else if j == 2 * k + 1 then Shown(first, Some(0)) else Shown(first, second)
  }

  /** The cell of sample `k` lies between what the lowest and the highest answers give. */
  ghost predicate CellWithin(content: string, user: string, start: nat, total: nat, samples: nat, k: nat, j: nat,
                             cell: int)
    requires samples >= 1 && k < samples && start + total < YEAR
  {
    Cell(AnswerTo(content, user, start, total, samples, 2 * k),
         AnswerTo(content, user, start, total, samples, 2 * k + 1), k, j)
    <= cell <=
    Cell(TopAnswerTo(content, user, start, total, samples, 2 * k),
         TopAnswerTo(content, user, start, total, samples, 2 * k + 1), k, j)
  }

  /** An answer changes the cell of its sample only. */
  lemma CellStep(content: string, user: string, start: nat, total: nat, samples: nat, k: nat, j: nat, cell: int,
                 val: Option<nat>)
    requires samples >= 1 && k < samples && j < 2 * samples && start + total < YEAR
    requires CellWithin(content, user, start, total, samples, k, j, cell)
    requires Within(AnswerTo(content, user, start, total, samples, j), val,
                    TopAnswerTo(content, user, start, total, samples, j))
    ensures CellWithin(content, user, start, total, samples, k, j + 1,
                       if k != j / 2 then cell else if val.None? then -10 else cell + val.value)
  {
    hide AnswerTo, TopAnswerTo;
    assert j == 2 * (j / 2) || j == 2 * (j / 2) + 1;
  }

  lemma CellStarts(content: string, user: string, start: nat, total: nat, samples: nat, k: nat)
    requires samples >= 1 && k < samples && start + total < YEAR
    ensures CellWithin(content, user, start, total, samples, k, 0, 0)
  {
    hide AnswerTo, TopAnswerTo;
  }

  /** In the end a cell is within the bounds of its sample, and they agree when nothing is uncertain. */
  lemma CellEnds(content: string, user: string, start: nat, total: nat, samples: nat, k: nat, cell: int)
    requires samples >= 1 && k < samples && start + total < YEAR
    requires CellWithin(content, user, start, total, samples, k, 2 * samples, cell)
    ensures SampleCount(content, user, start, total, samples, k) <= cell
         <= SampleTop(content, user, start, total, samples, k)
    ensures Searchable(content) ==> cell == SampleCount(content, user, start, total, samples, k)
  {
    hide Answer, TopAnswer, QueryText, Searchable;
    if Searchable(content) {
      AnswersAgree(content, QueryText(user, start, total, samples, 2 * k));
      AnswersAgree(content, QueryText(user, start, total, samples, 2 * k + 1));
    }
  }

  /** The answers are collected in order: a number is added to the cell of its sample, a refusal
      overwrites it. */
  method Collect(content: string, queries: array<string>, ghost user: string, ghost start: nat, ghost total: nat,
                 samples: nat)
    returns (counts: array<int>, hadErr: bool)
    requires samples >= 1 && start + total < YEAR && Free(content, '\0')
    requires queries.Length == 2 * samples
    requires forall j :: 0 <= j < 2 * samples ==> queries[j] == QueryText(user, start, total, samples, j)
    ensures fresh(counts) && counts.Length == samples
    ensures forall k :: 0 <= k < samples ==>
              SampleCount(content, user, start, total, samples, k) <= counts[k]
              <= SampleTop(content, user, start, total, samples, k)
    ensures Searchable(content) ==>
              forall k :: 0 <= k < samples ==> counts[k] == SampleCount(content, user, start, total, samples, k)
    ensures hadErr <==> SomeRefused(content, user, start, total, samples, 2 * samples)
  {
    hide Answer, TopAnswer, QueryText, Searchable, SomeRefused, CellWithin, SampleCount, SampleTop;
    counts := new int[samples](_ => 0);
    hadErr := false;
    NoneRefusedYet(content, user, start, total, samples);
    forall k | 0 <= k < samples ensures CellWithin(content, user, start, total, samples, k, 0, counts[k]) {
      CellStarts(content, user, start, total, samples, k);
    }
    for j := 0 to 2 * samples
      invariant fresh(counts) && counts.Length == samples
      invariant forall k :: 0 <= k < samples ==> CellWithin(content, user, start, total, samples, k, j, counts[k])
      invariant hadErr <==> SomeRefused(content, user, start, total, samples, j)
    {
      var val := RunQuery(content, queries[j]);
      RefusedStep(content, user, start, total, samples, j);
      ghost var before := counts[..];
      forall k | 0 <= k < samples
        ensures CellWithin(content, user, start, total, samples, k, j + 1,
                           if k != j / 2 then before[k] else if val.None? then -10 else before[k] + val.value)
      {
        CellStep(content, user, start, total, samples, k, j, before[k], val);
      }
      match val
      case Some(n) => counts[j / 2] := counts[j / 2] + n;
      case None =>
        hadErr := true;
        counts[j / 2] := -10;
    }
    forall k | 0 <= k < samples
      ensures SampleCount(content, user, start, total, samples, k) <= counts[k]
           <= SampleTop(content, user, start, total, samples, k)
      ensures Searchable(content) ==> counts[k] == SampleCount(content, user, start, total, samples, k)
    {
      CellEnds(content, user, start, total, samples, k, counts[k]);
    }
  }

  function Earlier(time1: nat, time2: nat): nat {
    if time1 < time2 then time1 else time2
  }

  function Distance(time1: nat, time2: nat): nat {
    if time1 < time2 then time2 - time1 else time1 - time2
  }

  /** The range goes from the one time to the other, whichever comes first. */
  lemma RangeIs(time1: nat, time2: nat)
    ensures time1 <= time2 ==> Earlier(time1, time2) == time1 && time1 + Distance(time1, time2) == time2
    ensures Earlier(time2, time1) == Earlier(time1, time2) && Distance(time2, time1) == Distance(time1, time2)
  {
  }

  /** `graph`: the two times span the range in either order. */
  method WidGraph(content: string, user: string, time1: nat, time2: nat, samples: nat)
    returns (counts: array<int>, hadErr: bool)
    requires samples >= 1 && time1 < YEAR && time2 < YEAR && Free(content, '\0')
    ensures fresh(counts) && counts.Length == samples
    ensures forall k :: 0 <= k < samples ==>
              SampleCount(content, user, Earlier(time1, time2), Distance(time1, time2), samples, k) <= counts[k]
              <= SampleTop(content, user, Earlier(time1, time2), Distance(time1, time2), samples, k)
    ensures Searchable(content) ==> forall k :: 0 <= k < samples ==>
              counts[k] == SampleCount(content, user, Earlier(time1, time2), Distance(time1, time2), samples, k)
    ensures hadErr <==>
              SomeRefused(content, user, Earlier(time1, time2), Distance(time1, time2), samples, 2 * samples)
  {
    hide SampleCount, SampleTop, SomeRefused, QueryText, Searchable;
    var totalInterval: int := time2 - time1;
    var low := time2;
    if totalInterval > 0 {
      low := time1;
    } else {
      totalInterval := -totalInterval;
    }
    assert low == Earlier(time1, time2) && totalInterval == Distance(time1, time2);
    var queries := PrepareQueries(user, low, totalInterval, samples);
    counts, hadErr := Collect(content, queries, user, low, totalInterval, samples);
  }
}
