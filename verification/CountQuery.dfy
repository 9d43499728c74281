/** The counting query: a log file streamed through a fixed buffer, split into records, each matched
    against the conditions. */
module CountQuery {
  import opened CStrings
  import opened CBuffers
  import opened Conditions
  import opened Records
  import opened RecordMatch

  const SEPARATOR := ",\n"

  // ----- the records that the loop visits, for any file

  /** One turn of the loop on a full buffer: the record at its front, where the text behind the record
      starts, and whether the buffer makes sense at all. */
  datatype Cut = Cut(record: string, next: nat) | Stuck

  function CutFront(w: string): (c: Cut)
    ensures c.Cut? ==> 0 < c.next <= |w| && c.record <= w
  {
    match StrStr(w, CLOSE)
    case None => Stuck
    case Some(k) =>
      var e := k + |CLOSE|;
      if e == |w| then Cut(w, e)
      else if w[e] != ',' then Stuck
      else if e + 1 < |w| && w[e + 1] == '\n' then Cut(w[..e], e + 2)
      else Cut(w[..e], e + 1)
  }

  /** The loop goes on only while the buffer holds something behind the record. */
  function Scan(data: string): seq<string>
    decreases |data|
  {
    if data == "" then []
    else match CutFront(Window(data))
      case Stuck => []
      case Cut(record, next) =>
        [record] + if next == |Window(data)| then [] else Scan(data[next..])
  }

  ghost predicate Accepted(conditions: seq<Cond>, record: string) {
    forall c <- conditions :: Holds(c, record)
  }

  ghost function CountAccepted(conditions: seq<Cond>, records: seq<string>): nat {
    if records == [] then 0
    else (if Accepted(conditions, records[0]) then 1 else 0) + CountAccepted(conditions, records[1..])
  }

  /** Records that are accepted, or that may be because of what stands behind them. */
  ghost predicate Acceptable(conditions: seq<Cond>, record: string) {
    forall c <- conditions :: MayHold(c, record)
  }

  ghost function CountAcceptable(conditions: seq<Cond>, records: seq<string>): nat {
    if records == [] then 0
    else (if Acceptable(conditions, records[0]) then 1 else 0) + CountAcceptable(conditions, records[1..])
  }

  /** Every record leaves room for the field opening of its first "rule": nothing is uncertain. */
  lemma {:induction false} NothingUncertain(conditions: seq<Cond>, records: seq<string>)
    requires forall r <- records :: RuleInside(r)
    ensures CountAcceptable(conditions, records) == CountAccepted(conditions, records)
    decreases |records|
  {
    hide Holds, RuleInside;
    if records != [] {
      assert records[0] in records && forall r <- records[1..] :: r in records;
      NothingUncertain(conditions, records[1..]);
    }
  }

  // ----- the loop

  /** The log file: reads fill the buffer unless the file ends. */
  class LogFile {
    var unread: string

    constructor (content: string)
      ensures unread == content
    {
      unread := content;
    }

    method Read(max: nat) returns (chunk: string)
      modifies this
      ensures chunk + unread == old(unread)
      ensures |chunk| == if |old(unread)| < max then |old(unread)| else max
    {
      var n := if |unread| < max then |unread| else max;
      chunk := unread[..n];
      unread := unread[n..];
    }
  }

  /** Reading behind the carried text leaves the window of all remaining data in the buffer. */
  method Refill(file: LogFile, buffer: CBuffer)
    requires buffer.Valid() && Free(file.unread, '\0')
    modifies file, buffer.cells
    ensures buffer.Valid() && Free(file.unread, '\0')
    ensures buffer.Text() + file.unread == old(buffer.Text() + file.unread)
    ensures buffer.Text() == Window(old(buffer.Text() + file.unread))
  {
    hide CStr;
    ghost var text, unread := buffer.Text(), file.unread;
    var chunk := file.Read(MSG_MAX_SIZE - |buffer.Text()|);
    assert forall k :: 0 <= k < |chunk| ==> chunk[k] == unread[k];
    assert forall k :: 0 <= k < |file.unread| ==> file.unread[k] == unread[|chunk| + k];
    buffer.Append(chunk);
    Assoc(text, chunk, file.unread);
    WindowStarts(text + chunk, file.unread);
  }

  /** Finds the end of the record at the front and terminates the record there. */
  method Split(buffer: CBuffer) returns (c: Cut)
    requires buffer.Valid()
    modifies buffer.cells
    ensures c == CutFront(old(buffer.Text()))
    ensures c.Cut? ==> buffer.Valid() && buffer.Text() == c.record && c.next <= MSG_MAX_SIZE
                       && buffer.TextAt(c.next) == old(buffer.Text())[c.next..]
  {
    hide CStr;
    ghost var was, text := buffer.cells[..], buffer.Text();
    var close := StrStr(buffer.Text(), CLOSE);
    if close.None? {
      return Stuck;
    }
    var e := close.value + |CLOSE|;
    if e == |buffer.Text()| {
      buffer.Suffix(e);
      return Cut(buffer.Text(), e);
    }
    if buffer.Text()[e] != ',' {
      return Stuck;
    }
    var next := e + 1;
    if next < |buffer.Text()| && buffer.Text()[next] == '\n' {
      next := next + 1;
    }
    buffer.Suffix(next);
    buffer.cells[e] := '\0';
    assert buffer.cells[..] == was[e := '\0'];
    EarlyEnd(was, text, e, 0);
    assert was[e := '\0'][0..] == was[e := '\0'] && text[0..e] == text[..e];
    assert was[e := '\0'][next..] == was[next..];
    return Cut(buffer.Text(), next);
  }

  /** Everything the loop will still visit can be searched. */
  predicate Searchable(data: string) {
    forall r <- Scan(data) :: RuleInside(r)
  }

  lemma ScanStep(data: string)
    requires data != ""
    ensures CutFront(Window(data)).Stuck? ==> Scan(data) == []
    ensures CutFront(Window(data)).Cut? ==>
      var c := CutFront(Window(data));
      c.next <= |data| && Scan(data) == [c.record] + if c.next == |Window(data)| then [] else Scan(data[c.next..])
  {
  }

  lemma CountStep(conditions: seq<Cond>, record: string, more: seq<string>)
    ensures CountAcceptable(conditions, [record] + more)
         == (if Acceptable(conditions, record) then 1 else 0) + CountAcceptable(conditions, more)
    ensures CountAccepted(conditions, [record] + more)
         == (if Accepted(conditions, record) then 1 else 0) + CountAccepted(conditions, more)
  {
    assert ([record] + more)[1..] == more;
  }

  lemma WindowEmpty(data: string)
    ensures Window(data) == "" <==> data == ""
  {
  }

  lemma NothingToScan(conditions: seq<Cond>)
    ensures Scan("") == [] && CountAccepted(conditions, []) == 0 && CountAcceptable(conditions, []) == 0
  {
  }

  lemma AcceptedIs(conditions: seq<Cond>, record: string)
    ensures Accepted(conditions, record) <==> forall c <- conditions :: Holds(c, record)
    ensures Acceptable(conditions, record) <==> forall c <- conditions :: MayHold(c, record)
  {
  }

  lemma WindowRest(data: string, unread: string, next: nat)
    requires next <= |Window(data)| && data == Window(data) + unread
    ensures data[next..] == Window(data)[next..] + unread
  {
  }

  /** The counting loop of the query branch.  It visits the records of `Scan` and nothing else, and counts
      those that satisfy every condition, and perhaps some whose answer lies behind them in memory; no agent
      writes any of these. */
  method CountRecords(content: string, conditions: seq<Cond>) returns (count: nat)
    requires Free(content, '\0')
    requires forall c <- conditions :: c.name != ""
    ensures CountAccepted(conditions, Scan(content)) <= count <= CountAcceptable(conditions, Scan(content))
    ensures Searchable(content) ==> count == CountAccepted(conditions, Scan(content))
  {
    hide Scan, CutFront, Window, Accepted, CountAccepted, Acceptable, CountAcceptable, RuleInside, Holds, MayHold, CStr;
    if Searchable(content) { NothingUncertain(conditions, Scan(content)); }
    var file := new LogFile(content);
    var buffer := new CBuffer();
    count := 0;
    ghost var data := content;
    assert "" + content == content;
    var going := true;
    while going
      invariant buffer.Valid() && Free(file.unread, '\0') && fresh(file) && fresh(buffer.cells)
      invariant data == buffer.Text() + file.unread
      invariant going ==> count + CountAccepted(conditions, Scan(data)) >= CountAccepted(conditions, Scan(content))
      invariant going ==> count + CountAcceptable(conditions, Scan(data)) <= CountAcceptable(conditions, Scan(content))
      invariant !going ==>
        CountAccepted(conditions, Scan(content)) <= count <= CountAcceptable(conditions, Scan(content))
      decreases going, |data|
    {
      Refill(file, buffer);
      WindowEmpty(data);
      if |buffer.Text()| == 0 {
        NothingToScan(conditions);
        going := false;
        break;
      }
      ScanStep(data);
      var cut := Split(buffer);
      if cut.Stuck? {
        NothingToScan(conditions);
        going := false;
        break;
      }
      ghost var more := if cut.next == |Window(data)| then [] else Scan(data[cut.next..]);
      CountStep(conditions, cut.record, more);
      var ok := MatchAll(buffer, conditions);
      AcceptedIs(conditions, cut.record);
      if ok {
        count := count + 1;
      }
      WindowRest(data, file.unread, cut.next);
      buffer.Shift(cut.next);
      going := |buffer.Text()| > 0;
      NothingToScan(conditions);
      data := data[cut.next..];
    }
  }

  // ----- what may stand behind a record

  /** Behind a record: the end, a comma with or without a newline, or anything else, at which the loop stops. */
  lemma CutCases(r: string, rest: string)
    requires Closes(r) && |r| <= 1021
    ensures rest == "" ==> CutFront(Window(r + rest)) == Cut(r, |r|)
    ensures rest != "" && rest[0] != ',' ==> CutFront(Window(r + rest)) == Stuck
    ensures rest != "" && rest[0] == ',' ==>
              CutFront(Window(r + rest)) == Cut(r, if |rest| > 1 && rest[1] == '\n' then |r| + 2 else |r| + 1)
  {
    hide StrStr;
    var s := r + rest;
    var w, n := Window(s), |r|;
    CloseInPrefix(r, s, w);
    assert w[..n] == r;
    assert rest != "" ==> n < |w| && w[n] == rest[0];
    assert |rest| > 1 ==> n + 1 < |w| && w[n + 1] == rest[1];
  }

  /** The loop takes up the text behind a comma, and behind a newline there; it stops behind any other
      character, and in front of a text without an end of a record. */
  lemma SplitterCases(r: string, rest: string)
    requires Closes(r) && |r| <= 1021
    ensures Scan(r) == [r] && Scan(r + ",") == [r] && Scan(r + ",\n") == [r]
    ensures rest != "" && rest[0] != ',' ==> Scan(r + rest) == []
    ensures rest != "" && rest[0] != '\n' ==> Scan(r + "," + rest) == [r] + Scan(rest)
    ensures rest != "" ==> Scan(r + ",\n" + rest) == [r] + Scan(rest)
  {
    hide CutFront, Closes, Scan;
    NoTail(r);
    ScanBehind(r, "", "");
    ScanBehind(r, ",", "");
    ScanBehind(r, ",\n", "");
    if rest != "" {
      ScanBehind(r, "", rest);
      ScanBehind(r, ",", rest);
      ScanBehind(r, ",\n", rest);
    }
  }

  lemma ScanBehind(r: string, sep: string, rest: string)
    requires Closes(r) && |r| <= 1021 && (sep == "" || sep == "," || sep == ",\n")
    ensures sep == "" && rest != "" && rest[0] != ',' ==> Scan(r + rest) == []
    ensures sep != "" && rest != "" && (sep == ",\n" || rest[0] != '\n') ==> Scan(r + sep + rest) == [r] + Scan(rest)
    ensures rest == "" ==> Scan(r + sep) == [r]
  {
    hide CutFront, Closes;
    CutCases(r, sep + rest);
    Assoc(r, sep, rest);
    NoTail(sep);
    assert "" + rest == rest;
    var data := r + (sep + rest);
    SomethingCloses(r);
    ScanStep(data);
    assert data[|r| + |sep|..] == rest;
    WindowLength(data);
  }

  /** A text without an end of a record among its first 1024 characters is not looked at. */
  lemma NothingFound(data: string)
    requires forall k :: 0 <= k < |data| - 1 && k < 1023 ==> !(data[k] == ']' && data[k + 1] == '}')
    ensures Scan(data) == []
  {
    var w := Window(data);
    forall k: nat ensures !OccursAt(w, CLOSE, k) { CloseAt(w, k); }
    if data != "" { ScanStep(data); }
  }

  // ----- a file of records

  /** The records of a newline-and-comma separated file that the loop reaches.  A record that leaves no
      room for its separator and one more character ends the loop; a longer one than the buffer is not
      even recognised. */
  function Visited(rs: seq<string>): seq<string> {
    if rs == [] then []
    else if |rs[0]| > MSG_MAX_SIZE then []
    else if |rs| == 1 || |rs[0]| + |SEPARATOR| >= MSG_MAX_SIZE then [rs[0]]
    else [rs[0]] + Visited(rs[1..])
  }

  /** Short enough: 1021 characters, or 1024 for the last record. */
  predicate FitBuffer(rs: seq<string>) {
    forall k :: 0 <= k < |rs| ==> |rs[k]| <= if k == |rs| - 1 then 1024 else 1021
  }

  lemma PrefixOccurs(s: string, w: string, k: nat)
    requires w <= s
    ensures OccursAt(w, CLOSE, k) <==> OccursAt(s, CLOSE, k) && k + 2 <= |w|
  {
    CloseAt(s, k);
    CloseAt(w, k);
  }

  /** The end of a record is recognised in any longer text, and not before it has been read. */
  lemma CloseInPrefix(r: string, s: string, w: string)
    requires Closes(r) && r <= s && w <= s
    ensures StrStr(w, CLOSE) == if |r| <= |w| then Some(|r| - 2) else None
  {
    forall k: nat ensures OccursAt(w, CLOSE, k) <==> OccursAt(s, CLOSE, k) && k + 2 <= |w| { PrefixOccurs(s, w, k); }
    forall k: nat ensures OccursAt(r, CLOSE, k) <==> OccursAt(s, CLOSE, k) && k + 2 <= |r| { PrefixOccurs(s, r, k); }
    if |r| <= |w| {
      StrStrIs(w, CLOSE, |r| - 2);
    }
  }

  lemma CutLast(r: string)
    requires Closes(r)
    ensures CutFront(Window(r)) == if |r| <= MSG_MAX_SIZE then Cut(r, |r|) else Stuck
  {
    hide StrStr;
    CloseInPrefix(r, r, Window(r));
  }

  lemma CutInner(r: string, rest: string)
    requires Closes(r) && rest != ""
    ensures var w := Window(r + SEPARATOR + rest);
            if |r| > MSG_MAX_SIZE then CutFront(w) == Stuck
            else CutFront(w).Cut? && CutFront(w).record == r
                 && (CutFront(w).next < |w| <==> |r| + |SEPARATOR| < MSG_MAX_SIZE)
                 && (CutFront(w).next < |w| ==> CutFront(w).next == |r| + |SEPARATOR|)
  {
    hide StrStr;
    var s := r + SEPARATOR + rest;
    var w, n := Window(s), |r|;
    assert r <= s;
    CloseInPrefix(r, s, w);
    assert s[n] == ',' && s[n + 1] == '\n';
    assert n < |w| ==> w[n] == ',';
    assert n + 1 < |w| ==> w[n + 1] == '\n';
    assert n <= |w| ==> w[..n] == r;
    assert n > |w| ==> w <= r;
    assert n == |w| ==> w == r;
  }

  lemma {:induction false} ScanVisits(rs: seq<string>)
    requires forall r <- rs :: Closes(r)
    ensures Scan(Join(rs, SEPARATOR)) == Visited(rs)
    decreases |rs|
  {
    hide CutFront, Window, Closes;
    var data := Join(rs, SEPARATOR);
    if rs != [] {
      var r := rs[0];
      assert Closes(r);
      SomethingCloses(r);
      if |rs| == 1 {
        CutLast(r);
        ScanStep(r);
        NothingToScan([]);
        WindowLength(r);
      } else {
        var rest := Join(rs[1..], SEPARATOR);
        assert rs[1] in rs && rest[..|rs[1]|] == rs[1];
        SomethingCloses(rs[1]);
        CutInner(r, rest);
        ScanStep(data);
        assert data[|r| + |SEPARATOR|..] == rest;
        ScanVisits(rs[1..]);
      }
    }
  }

  lemma SomethingCloses(r: string)
    requires Closes(r)
    ensures |r| >= 2
  {
  }

  lemma WindowLength(data: string)
    ensures |data| <= MSG_MAX_SIZE ==> Window(data) == data
  {
  }

  lemma {:induction false} VisitedAll(rs: seq<string>)
    ensures Visited(rs) == rs <==> FitBuffer(rs)
    decreases |rs|
  {
    if |rs| > 1 {
      VisitedAll(rs[1..]);
      assert forall k :: 0 <= k < |rs| - 1 ==> rs[1..][k] == rs[k + 1];
      assert forall k :: 1 <= k < |rs| ==> rs[k] == rs[1..][k - 1];
      assert rs == [rs[0]] + rs[1..];
    }
  }

  /** The splitter visits exactly the records of the file, in order and once each, if and only if every
      record but the last has at most 1021 characters, and the last at most 1024. */
  lemma ScanIsExact(rs: seq<string>)
    requires forall r <- rs :: Closes(r)
    ensures Scan(Join(rs, ",\n")) == rs <==> FitBuffer(rs)
  {
    hide Scan;
    ScanVisits(rs);
    VisitedAll(rs);
  }
}
