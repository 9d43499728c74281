/** Evaluating conditions on a record by searching its text in the buffer. */
module RecordMatch {
  import opened CStrings
  import opened CBuffers
  import opened Conditions
  import opened Dates
  import opened Records

  // ----- what a comparison means

  /** An operator applied to the value found (`text`) and the value asked for. */
  predicate Satisfies(op: Op, numeric: bool, asked: string, text: string) {
    if numeric then
      match op
      case Equal => Atoi(asked) == Atoi(text)
      case NotEqual => Atoi(asked) != Atoi(text)
      case Below => Atoi(text) < Atoi(asked)
      case Above => Atoi(text) > Atoi(asked)
    else
      match op
      case Equal => asked == text
      case NotEqual => asked != text
      case Below => Less(text, asked)
      case Above => Less(asked, text)
  }

  /** Of the three comparisons exactly one holds, for numbers and for texts, and inequality is the
      opposite of equality. */
  lemma OperatorsPartition(numeric: bool, asked: string, text: string)
    ensures Satisfies(NotEqual, numeric, asked, text) <==> !Satisfies(Equal, numeric, asked, text)
    ensures Satisfies(Below, numeric, asked, text) || Satisfies(Equal, numeric, asked, text)
          || Satisfies(Above, numeric, asked, text)
    ensures !(Satisfies(Below, numeric, asked, text) && Satisfies(Equal, numeric, asked, text))
    ensures !(Satisfies(Below, numeric, asked, text) && Satisfies(Above, numeric, asked, text))
    ensures !(Satisfies(Equal, numeric, asked, text) && Satisfies(Above, numeric, asked, text))
  {
    hide Atoi, Less;
    LessTotal(asked, text);
    LessTotal(text, asked);
  }

  /** The decimal digits of a number. */
  function Decimal(n: nat): (s: string)
    ensures s != "" && forall k :: 0 <= k < |s| ==> IsDigit(s[k])
  {
    if n < 10 then [DigitChar(n)] else Decimal(n / 10) + [DigitChar(n % 10)]
  }

  lemma {:induction false} DecimalValue(n: nat)
    ensures Value(Decimal(n)) == n
  {
    var s := Decimal(n);
    if n < 10 {
      assert s[..0] == "";
    } else {
      DecimalValue(n / 10);
      assert s[..|s| - 1] == Decimal(n / 10);
    }
  }

  /** A numeric comparison of written numbers compares the numbers. */
  lemma NumbersCompare(op: Op, asked: int, found: int)
    ensures Satisfies(op, true, Written(asked), Written(found)) <==>
      match op
      case Equal => found == asked
      case NotEqual => found != asked
      case Below => found < asked
      case Above => found > asked
  {
    hide Written, Atoi;
    WrittenNumber(asked);
    WrittenNumber(found);
  }

  /** A comparison of texts goes by their first difference; a text comes in front of its extensions. */
  lemma TextsCompare(op: Op, asked: string, found: string)
    ensures Satisfies(op, false, asked, found) <==>
      match op
      case Equal => found == asked
      case NotEqual => found != asked
      case Below => exists k :: LowerAt(found, asked, k)
      case Above => exists k :: LowerAt(asked, found, k)
  {
    hide Less;
    LessIsLower(found, asked);
    LessIsLower(asked, found);
  }

  /** A value that goes on behind the text asked for is above it, and one that the text asked for goes on
      from is below it. */
  lemma ExtensionsCompare(text: string, more: string)
    requires more != ""
    ensures Satisfies(Below, false, text + more, text) && !Satisfies(Above, false, text + more, text)
    ensures Satisfies(Above, false, text, text + more) && !Satisfies(Below, false, text, text + more)
  {
    hide Less;
    LessExtension(text, more);
  }

  /** A number as it is written, with a minus in front when it is negative. */
  function Written(n: int): string {
    if n < 0 then "-" + Decimal(-n) else Decimal(n)
  }

  lemma WrittenNumber(n: int)
    ensures Atoi(Written(n)) == n
  {
    hide Atoi, Value, SignedValue, DigitsValue;
    var s := Decimal(if n < 0 then -n else n);
    DecimalValue(if n < 0 then -n else n);
    NoTail(s);
    if n < 0 {
      Signed('-', s);
      DigitsIn(s);
      AtoiAt("", "-" + s);
      assert "" + ("-" + s) == "-" + s;
    } else {
      AtoiReads("", s, "");
      assert "" + s == s;
    }
  }

  lemma DigitsIn(s: string)
    requires forall k :: 0 <= k < |s| ==> IsDigit(s[k])
    ensures DigitsValue(s) == Value(s)
  {
    SpanIs(s, IsDigit, |s|);
    assert s[..|s|] == s;
  }

  /** The sign of `strcmp`. */
  function StrCmp(a: string, b: string): int {
    if a == b then 0 else if Less(a, b) then -1 else 1
  }

  /** The `switch` on the operator, once for numbers and once for texts. */
  method Compare(op: Op, numeric: bool, asked: string, text: string) returns (ok: bool)
    ensures ok == Satisfies(op, numeric, asked, text)
  {
    hide Less, Atoi;
    LessTotal(asked, text);
    LessTotal(text, asked);
    if numeric {
      match op
      case Equal => ok := Atoi(asked) == Atoi(text);
      case NotEqual => ok := Atoi(asked) != Atoi(text);
      case Below => ok := Atoi(text) < Atoi(asked);
      case Above => ok := Atoi(text) > Atoi(asked);
    } else {
      match op
      case Equal => ok := 0 == StrCmp(asked, text);
      case NotEqual => ok := 0 != StrCmp(asked, text);
      case Below => ok := 0 < StrCmp(asked, text);
      case Above => ok := 0 > StrCmp(asked, text);
    }
  }

  // ----- the search on arbitrary text

  const NUMBER_FIELD := "number\",\"name\":\""
  const RULE_FIELD := "rule\":\""

  predicate NumberAt(rec: string, k: nat) {
    k > |NUMBER_FIELD| && OccursAt(rec, "number", k - |NUMBER_FIELD|)
  }

  /** Where the value behind a field name at `k` starts. */
  function ValueStart(c: Cond, k: nat): nat {
    k + |c.name| + |VALUE_OPEN|
  }

  function ValueEnd(rec: string, start: nat): (e: nat)
    requires start <= |rec|
    ensures start <= e <= |rec|
  {
    start + Find(rec[start..], '"')
  }

  /** At `k` stands a text that ends like an argument of the right name, and its value satisfies `c`. */
  predicate HitAt(rec: string, c: Cond, k: nat) {
    OccursAt(rec, c.name + VALUE_OPEN, k) &&
    var v := ValueStart(c, k);
    var e := ValueEnd(rec, v);
    e < |rec| && Satisfies(c.op, NumberAt(rec, k), c.value, rec[v..e])
  }

  ghost predicate Hits(rec: string, c: Cond) {
    exists k: nat :: HitAt(rec, c, k)
  }

  /** The first "rule" of the text has room for its field opening. */
  predicate RuleInside(rec: string) {
    match StrStr(rec, "rule") case None => true case Some(k) => k + |RULE_FIELD| <= |rec|
  }

  predicate RuleHit(rec: string, c: Cond)
    requires RuleInside(rec)
  {
    match StrStr(rec, "rule")
    case None => false
    case Some(k) =>
      var v := k + |RULE_FIELD|;
      var e := ValueEnd(rec, v);
      e < |rec| && Satisfies(c.op, false, c.value, rec[v..e])
  }

  /** The condition holds of the record, whatever stands behind it in the buffer. */
  ghost predicate Holds(c: Cond, rec: string) {
    if c.name == "rule" then RuleInside(rec) && RuleHit(rec, c) else Hits(rec, c)
  }

  /** The condition holds, or its value would be looked for behind the record. */
  ghost predicate MayHold(c: Cond, rec: string) {
    Holds(c, rec) || (c.name == "rule" && !RuleInside(rec))
  }

  // ----- the same by columns

  /** The first quote from `v` on is at `e`; none if `e` is the end. */
  predicate QuoteAt(rec: string, v: nat, e: nat) {
    v <= e <= |rec| && (forall j :: v <= j < e ==> rec[j] as int != 34) && (e < |rec| ==> rec[e] as int == 34)
  }

  lemma ValueEndIs(rec: string, v: nat, e: nat)
    requires QuoteAt(rec, v, e)
    ensures ValueEnd(rec, v) == e
  {
    var part := rec[v..][..e - v];
    assert forall j :: 0 <= j < |part| ==> part[j] == rec[v + j];
    FindIs(rec[v..], '"', e - v);
  }

  /** A name at `k` is followed by eleven characters and the value, and is a number's when the word stands sixteen
      characters in front of it, and not at the start of the buffer. */
  lemma HitColumns(rec: string, c: Cond, k: nat, e: nat)
    ensures HitAt(rec, c, k) ==> OccursAt(rec, c.name + "\",\"value\":\"", k)
    ensures OccursAt(rec, c.name + "\",\"value\":\"", k) && QuoteAt(rec, k + |c.name| + 11, e) ==>
              (HitAt(rec, c, k) <==>
               e < |rec|
               && Satisfies(c.op, k > 16 && OccursAt(rec, "number", k - 16), c.value, rec[k + |c.name| + 11..e]))
  {
    hide Satisfies, Find;
    assert |VALUE_OPEN| == 11 && |NUMBER_FIELD| == 16;
    if QuoteAt(rec, k + |c.name| + 11, e) { ValueEndIs(rec, k + |c.name| + 11, e); }
  }

  /** The rule name is taken seven characters behind the start of the first "rule". */
  lemma RuleColumns(rec: string, c: Cond, k: nat, e: nat)
    requires OccursAt(rec, "rule", k) && forall j: nat :: j < k ==> !OccursAt(rec, "rule", j)
    ensures RuleInside(rec) <==> k + 7 <= |rec|
    ensures QuoteAt(rec, k + 7, e) ==>
              (RuleHit(rec, c) <==> e < |rec| && Satisfies(c.op, false, c.value, rec[k + 7..e]))
  {
    hide Satisfies, Find, OccursAt;
    StrStrIs(rec, "rule", k);
    assert |RULE_FIELD| == 7;
    if QuoteAt(rec, k + 7, e) { ValueEndIs(rec, k + 7, e); }
  }

  /** A record without the word meets no condition on the rule. */
  lemma NoRule(rec: string, c: Cond)
    requires forall j: nat :: !OccursAt(rec, "rule", j)
    ensures RuleInside(rec) && !RuleHit(rec, c)
  {
    hide OccursAt;
  }

  // ----- the search in the buffer

  /** Terminating the text early at `e` leaves the part in front of it. */
  lemma EarlyEnd(cells: seq<char>, text: string, e: nat, k: nat)
    requires CStr(cells) == text && e < |text| && k <= e
    ensures CStr(cells[e := '\0'][k..]) == text[k..e]
  {
    var short := cells[e := '\0'];
    assert forall j :: 0 <= j < e ==> short[j] == text[j];
    assert short[k..][..e - k] == text[k..e];
    assert short[k..][e - k] == '\0';
    CStrIs(short[k..], text[k..e]);
  }

  /** Compares the value from `v` to the quote at `e`, which is a NUL meanwhile, and puts the quote back.
      `field` is where "number" has to stand for a numeric comparison. */
  method CompareAt(buffer: CBuffer, c: Cond, field: Option<nat>, v: nat, e: nat) returns (ok: bool)
    requires buffer.Valid() && v <= e < |buffer.Text()| && buffer.Text()[e] == '"'
    requires field.Some? ==> field.value + |NUMBER_FIELD| <= v
    modifies buffer.cells
    ensures buffer.cells[..] == old(buffer.cells[..])
    ensures ok == Satisfies(c.op, field.Some? && OccursAt(old(buffer.Text()), "number", field.value), c.value,
                            old(buffer.Text())[v..e])
  {
    hide Satisfies, CStr;
    ghost var was, text := buffer.cells[..], buffer.Text();
    buffer.cells[e] := '\0';
    assert buffer.cells[..] == was[e := '\0'];
    EarlyEnd(was, text, e, v);
    var numeric := false;
    if field.Some? {
      EarlyEnd(was, text, e, field.value);
      NumberSurvives(text, e, field.value);
      numeric := "number" <= buffer.TextAt(field.value);
    }
    ok := Compare(c.op, numeric, c.value, buffer.TextAt(v));
    buffer.cells[e] := '"';
    assert was[e := '\0'][e := '"'] == was;
  }

  lemma NumberSurvives(text: string, e: nat, k: nat)
    requires k + |NUMBER_FIELD| <= e <= |text|
    ensures "number" <= text[k..e] <==> OccursAt(text, "number", k)
  {
    assert text[k..e] <= text[k..];
  }

  lemma SplitOccurrence(rec: string, name: string, sep: string, k: nat)
    ensures OccursAt(rec, name + sep, k) <==> OccursAt(rec, name, k) && OccursAt(rec, sep, k + |name|)
  {
    if OccursAt(rec, name, k) && k + |name| <= |rec| {
      assert rec[k..] == name + rec[k + |name|..];
      if OccursAt(rec, sep, k + |name|) {
        assert rec[k..] == name + (sep + rec[k + |name|..][|sep|..]);
        Assoc(name, sep, rec[k + |name|..][|sep|..]);
      }
    }
    if OccursAt(rec, name + sep, k) {
      var tail := rec[k..][|name + sep|..];
      assert rec[k..] == name + sep + tail;
      Assoc(name, sep, tail);
      assert rec[k + |name|..] == sep + tail;
    }
  }

  lemma SepChars(rec: string, k: nat)
    ensures OccursAt(rec, VALUE_OPEN, k) ==>
      k + |VALUE_OPEN| <= |rec| && rec[k] == '"' && rec[k + 1] == ',' && rec[k + |VALUE_OPEN| - 1] == '"'
  {
    if OccursAt(rec, VALUE_OPEN, k) {
      var t := rec[k..];
      assert t[0] == VALUE_OPEN[0] && t[1] == VALUE_OPEN[1] && t[|VALUE_OPEN| - 1] == VALUE_OPEN[|VALUE_OPEN| - 1];
    }
  }

  /** After a hit that does not satisfy the operator the search skips a position; nothing can be there. */
  lemma NoAdjacentHit(rec: string, c: Cond, k: nat)
    requires OccursAt(rec, c.name + VALUE_OPEN, k)
    ensures !HitAt(rec, c, k + 1)
  {
    SplitOccurrence(rec, c.name, VALUE_OPEN, k);
    SplitOccurrence(rec, c.name, VALUE_OPEN, k + 1);
    SepChars(rec, k + |c.name|);
    SepChars(rec, k + 1 + |c.name|);
  }

  /** Once a value has no closing quote, no later text can be a hit either. */
  lemma NoLaterHit(rec: string, c: Cond, k: nat, j: nat)
    requires k <= j && ValueStart(c, k) <= |rec| && Free(rec[ValueStart(c, k)..], '"')
    ensures !HitAt(rec, c, j)
  {
    var v := ValueStart(c, j);
    if v <= |rec| {
      var tail := rec[v..];
      assert forall i :: 0 <= i < |tail| ==> tail[i] == rec[ValueStart(c, k)..][i + (j - k)];
      assert tail[..|tail|] == tail;
      FindIs(tail, '"', |tail|);
    } else {
      SplitOccurrence(rec, c.name, VALUE_OPEN, j);
      SepChars(rec, j + |c.name|);
    }
  }

  lemma NoHitBetween(rec: string, c: Cond, from: nat, to: nat)
    requires forall j: nat :: from <= j < to ==> !OccursAt(rec, c.name, j)
    ensures forall j: nat :: from <= j < to ==> !HitAt(rec, c, j)
  {
    forall j: nat | from <= j < to ensures !HitAt(rec, c, j) {
      SplitOccurrence(rec, c.name, VALUE_OPEN, j);
    }
  }

  /** What an occurrence of the name turns out to be. */
  datatype Attempt = Satisfied | Refused | Unclosed | Elsewhere

  method TryAt(buffer: CBuffer, c: Cond, k: nat) returns (r: Attempt)
    requires buffer.Valid() && OccursAt(buffer.Text(), c.name, k)
    modifies buffer.cells
    ensures buffer.cells[..] == old(buffer.cells[..])
    ensures r.Satisfied? == HitAt(old(buffer.Text()), c, k)
    ensures r.Refused? ==> OccursAt(old(buffer.Text()), c.name + VALUE_OPEN, k) && k + 2 <= |old(buffer.Text())|
    ensures r.Unclosed? ==> forall j: nat :: k <= j ==> !HitAt(old(buffer.Text()), c, j)
  {
    hide Satisfies, CStr;
    ghost var rec := buffer.Text();
    SplitOccurrence(rec, c.name, VALUE_OPEN, k);
    SepChars(rec, k + |c.name|);
    if !OccursAt(buffer.Text(), VALUE_OPEN, k + |c.name|) {
      return Elsewhere;
    }
    var v := ValueStart(c, k);
    var e := ValueEnd(buffer.Text(), v);
    if e == |buffer.Text()| {
      assert rec[v..][..e - v] == rec[v..];
      forall j: nat | k <= j ensures !HitAt(rec, c, j) { NoLaterHit(rec, c, k, j); }
      return Unclosed;
    }
    var ok := CompareAt(buffer, c, if k > |NUMBER_FIELD| then Some(k - |NUMBER_FIELD|) else None, v, e);
    return if ok then Satisfied else Refused;
  }

  /** A condition on an argument: every place where the name occurs is tried. */
  method SearchArgument(buffer: CBuffer, c: Cond) returns (ok: bool)
    requires buffer.Valid() && c.name != ""
    modifies buffer.cells
    ensures buffer.cells[..] == old(buffer.cells[..])
    ensures ok == Hits(old(buffer.Text()), c)
  {
    hide Satisfies, CStr, HitAt, StrStrFrom;
    ghost var rec := buffer.Text();
    var p: nat := 0;
    while true
      invariant buffer.cells[..] == old(buffer.cells[..]) && p <= |rec|
      invariant forall j: nat :: j < p ==> !HitAt(rec, c, j)
      decreases |rec| - p
    {
      var found := StrStrFrom(buffer.Text(), c.name, p);
      if found.None? {
        NoHitFrom(rec, c, p);
        return false;
      }
      var k := found.value;
      NoHitBetween(rec, c, p, k);
      var r := TryAt(buffer, c, k);
      match r
      case Satisfied => return true;
      case Unclosed => return false;
      case Refused =>
        NoAdjacentHit(rec, c, k);
        p := k + 2;
      case Elsewhere =>
        NameInside(rec, c.name, k);
        p := k + 1;
    }
  }

  lemma NameInside(rec: string, name: string, k: nat)
    requires OccursAt(rec, name, k) && name != ""
    ensures k + 1 <= |rec|
  {
  }

  lemma NoHitFrom(rec: string, c: Cond, p: nat)
    requires forall j: nat :: p <= j ==> !OccursAt(rec, c.name, j)
    requires forall j: nat :: j < p ==> !HitAt(rec, c, j)
    ensures !Hits(rec, c)
  {
    forall j: nat | p <= j ensures !HitAt(rec, c, j) {
      SplitOccurrence(rec, c.name, VALUE_OPEN, j);
    }
  }

  /** One condition against the record in the buffer.  The buffer is left as it was.  When the record ends
      inside the field opening of its first "rule", the comparison is made with whatever stands behind the
      record in memory, which is not part of this model: the answer can then be either. */
  method MatchCondition(buffer: CBuffer, c: Cond) returns (ok: bool)
    requires buffer.Valid() && c.name != ""
    modifies buffer.cells
    ensures buffer.cells[..] == old(buffer.cells[..])
    ensures Holds(c, old(buffer.Text())) ==> ok
    ensures ok ==> MayHold(c, old(buffer.Text()))
  {
    hide Satisfies, CStr;
    if c.name == "rule" {
      var k := StrStr(buffer.Text(), "rule");
      if k.None? {
        return false;
      }
      var v := k.value + |RULE_FIELD|;
      if v > |buffer.Text()| {
        ok := *;
        return;
      }
      var e := ValueEnd(buffer.Text(), v);
      if e == |buffer.Text()| {
        return false;
      }
      ok := CompareAt(buffer, c, None, v, e);
    } else {
      ok := SearchArgument(buffer, c);
    }
  }

  /** All conditions, up to the first that fails. */
  method MatchAll(buffer: CBuffer, conditions: seq<Cond>) returns (ok: bool)
    requires buffer.Valid() && forall c <- conditions :: c.name != ""
    modifies buffer.cells
    ensures buffer.cells[..] == old(buffer.cells[..])
    ensures (forall c <- conditions :: Holds(c, old(buffer.Text()))) ==> ok
    ensures ok ==> forall c <- conditions :: MayHold(c, old(buffer.Text()))
  {
    hide Holds, MayHold, CStr;
    for i := 0 to |conditions|
      invariant buffer.cells[..] == old(buffer.cells[..])
      invariant forall j :: 0 <= j < i ==> MayHold(conditions[j], old(buffer.Text()))
    {
      assert conditions[i] in conditions;
      var matched := MatchCondition(buffer, conditions[i]);
      if !matched {
        return false;
      }
    }
    return true;
  }
}
