/** A log file as a list of entries, and what a query on its text counts among them. */
module LogQueries {
  import opened CStrings
  import opened Conditions
  import opened Templates
  import opened Records
  import opened RecordMatch
  import opened RecordQueries
  import opened CountQuery

  /** What an agent reports of a matched line. */
  datatype Entry = Entry(rule: string, args: seq<Arg>)

  function TextOf(e: Entry): string {
    Record(e.rule, e.args)
  }

  function TextsOf(es: seq<Entry>): (ts: seq<string>)
    ensures |ts| == |es| && forall k :: 0 <= k < |es| ==> ts[k] == TextOf(es[k])
  {
    if es == [] then [] else [TextOf(es[0])] + TextsOf(es[1..])
  }

  function LogText(es: seq<Entry>): string {
    Join(TextsOf(es), SEPARATOR)
  }

  /** An entry as the matcher produces it, with no value that looks like the end of a record. */
  predicate Regular(e: Entry) {
    CleanName(e.rule) && CleanAll(e.args) && forall a <- e.args :: NoClose(a.value)
  }

  /** Entries that the counting loop can tell apart again. */
  predicate Storable(es: seq<Entry>) {
    (forall e <- es :: Regular(e)) && FitBuffer(TextsOf(es))
  }

  predicate Meets(e: Entry, cs: seq<Cond>) {
    forall c <- cs :: SatisfiedBy(c, e.rule, e.args)
  }

  function CountEntries(es: seq<Entry>, cs: seq<Cond>): nat {
    if es == [] then 0 else (if Meets(es[0], cs) then 1 else 0) + CountEntries(es[1..], cs)
  }

  /** Conditions as the parser delivers them. */
  predicate Askable(cs: seq<Cond>) {
    forall c <- cs :: c.name != "" && Free(c.name, '"')
  }

  lemma {:induction false} ParsedAskable(s: string)
    requires ParseFrom(s).Conds?
    ensures Askable(ParseFrom(s).list)
    decreases |s|
  {
    hide StrTok, FindOp;
    if StrTok(s).Some? {
      var t := StrTok(s).value;
      var v := StrTok(t.rest).value;
      var p := Unamped(t.text);
      assert Free(p, '"') by { assert forall i :: 0 <= i < |p| ==> p[i] == t.text[i + |t.text| - |p|]; }
      ParsedAskable(v.rest);
      var k := FindOp(p).value.0;
      assert Free(p[..k], '"');
    }
  }

  lemma RegularText(e: Entry)
    requires Regular(e)
    ensures Closes(TextOf(e)) && RuleInside(TextOf(e)) && Free(TextOf(e), '\0')
  {
    RecordCloses(e.rule, e.args);
    RecordHasNoNul(e.rule, e.args);
    RuleHitMeans(e.rule, e.args, Cond("rule", Equal, ""));
  }

  lemma LogIsText(es: seq<Entry>)
    requires forall e <- es :: Regular(e)
    ensures Free(LogText(es), '\0') && forall t <- TextsOf(es) :: Closes(t) && RuleInside(t)
  {
    hide Regular, TextOf, Closes, RuleInside;
    forall k | 0 <= k < |es|
      ensures Closes(TextsOf(es)[k]) && RuleInside(TextsOf(es)[k]) && Free(TextsOf(es)[k], '\0')
    {
      assert es[k] in es;
      RegularText(es[k]);
    }
    JoinFree(TextsOf(es), SEPARATOR, '\0');
  }

  lemma AcceptedMeets(e: Entry, cs: seq<Cond>)
    requires Regular(e) && Askable(cs)
    ensures RuleInside(TextOf(e))
    ensures Accepted(cs, TextOf(e)) <==> Meets(e, cs)
  {
    hide RuleInside, Holds, SatisfiedBy, Record;
    RegularText(e);
    forall c | c in cs ensures Holds(c, TextOf(e)) <==> SatisfiedBy(c, e.rule, e.args) {
      HoldsMeans(c, e.rule, e.args);
    }
  }

  lemma {:induction false} AcceptedCounts(es: seq<Entry>, cs: seq<Cond>)
    requires (forall e <- es :: Regular(e)) && Askable(cs)
    ensures forall t <- TextsOf(es) :: RuleInside(t)
    ensures CountAccepted(cs, TextsOf(es)) == CountEntries(es, cs)
  {
    hide Regular, TextOf, RuleInside, Meets, Accepted, Askable;
    LogIsText(es);
    if es != [] {
      assert es[0] in es && forall e <- es[1..] :: e in es;
      AcceptedMeets(es[0], cs);
      AcceptedCounts(es[1..], cs);
      assert TextsOf(es)[1..] == TextsOf(es[1..]);
    }
  }

  /** On the file of any storable entries the counting loop can be run, and it counts the entries that
      meet all conditions. */
  lemma QueryCounts(es: seq<Entry>, cs: seq<Cond>)
    requires Storable(es) && Askable(cs)
    ensures Free(LogText(es), '\0') && Searchable(LogText(es))
    ensures CountAccepted(cs, Scan(LogText(es))) == CountEntries(es, cs)
  {
    hide Scan, FitBuffer, CountAccepted, RuleInside, Closes, TextsOf;
    LogIsText(es);
    ScanIsExact(TextsOf(es));
    AcceptedCounts(es, cs);
  }

  /** The order of the conditions does not matter, whatever text the file holds. */
  lemma OrderIrrelevant(content: string, cs: seq<Cond>, ds: seq<Cond>)
    requires multiset(cs) == multiset(ds)
    ensures CountAccepted(cs, Scan(content)) == CountAccepted(ds, Scan(content))
  {
    hide Scan;
    assert forall c :: c in cs <==> c in multiset(cs);
    assert forall c :: c in ds <==> c in multiset(ds);
    SameConditions(Scan(content), cs, ds);
  }

  lemma {:induction false} SameConditions(records: seq<string>, cs: seq<Cond>, ds: seq<Cond>)
    requires forall c :: c in cs <==> c in ds
    ensures CountAccepted(cs, records) == CountAccepted(ds, records)
  {
    hide Holds;
    if records != [] { SameConditions(records[1..], cs, ds); }
  }

  // ----- the query branch

  /** The answer to a query text; no number when the text is refused. */
  ghost function Answer(content: string, text: string): Option<nat> {
    match Parse(text)
    case Bad(_) => None
    case Conds(cs) => Some(CountAccepted(cs, Scan(content)))
  }

  /** The highest answer that memory behind the records can lead to. */
  ghost function TopAnswer(content: string, text: string): Option<nat> {
    match Parse(text)
    case Bad(_) => None
    case Conds(cs) => Some(CountAcceptable(cs, Scan(content)))
  }

  /** Between the two, and neither more nor less refused than they are. */
  predicate Within(low: Option<nat>, answer: Option<nat>, top: Option<nat>) {
    if answer.None? then low.None? && top.None?
    else low.Some? && top.Some? && low.value <= answer.value <= top.value
  }

  /** On a searchable file nothing depends on memory behind the records. */
  lemma AnswersAgree(content: string, text: string)
    requires Searchable(content)
    ensures TopAnswer(content, text) == Answer(content, text)
  {
    hide Scan, CountAccepted, CountAcceptable;
    if Parse(text).Conds? { NothingUncertain(Parse(text).list, Scan(content)); }
  }

  /** A query without conditions is refused. */
  lemma NoConditionsRefused(content: string, text: string)
    requires forall k :: 0 <= k < |text| ==> text[k] == '"'
    ensures Answer(content, text) == None && TopAnswer(content, text) == None
  {
    hide ParseFrom, Scan, CountAccepted, CountAcceptable;
    NoConditionsIs(text);
  }

  /** Parse the conditions, then count. */
  method RunQuery(content: string, text: string) returns (answer: Option<nat>)
    requires Free(content, '\0')
    ensures Within(Answer(content, text), answer, TopAnswer(content, text))
    ensures Searchable(content) ==> answer == Answer(content, text)
  {
    hide ParseFrom, Scan, CountAccepted, CountAcceptable, Searchable;
    var r := ParseConditions(text);
    match r
    case Bad(_) => answer := None;
    case Conds(cs) =>
      ParsedAskable(text);
      var count := CountRecords(content, cs);
      answer := Some(count);
  }
}
