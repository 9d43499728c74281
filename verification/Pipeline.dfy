/** From log lines on an agent to the answer of a count query on the server. */
module Pipeline {
  import opened CStrings
  import opened CBuffers
  import opened Templates
  import opened Records
  import opened RuleParser
  import opened ReadAhead
  import opened RuleFiles
  import opened InfoSources
  import opened Framing
  import opened Conditions
  import opened CountQuery
  import opened LogQueries

  // ----- what an agent reports

  /** Rule name and arguments instead of the printed record. */
  function EntryOf(line: string, m: string): Option<Entry> {
    var n := Span(line, IsNameChar);
    if At(line, n) != '|' then None
    else match MatchText(line[n + 1..], m)
      case None => None
      case Some(args) =>
        if |Record(line[..n], args)| < MSG_MAX_SIZE then Some(Entry(line[..n], args)) else None
  }

  function SelectEntry(lines: seq<string>, m: string): Option<Entry> {
    if lines == [] then None
    else if EntryOf(lines[0], m).Some? then EntryOf(lines[0], m)
    else SelectEntry(lines[1..], m)
  }

  /** The entries of the lines that some rule matches, in the order of the lines. */
  function Reported(rules: seq<string>, messages: seq<string>): seq<Entry> {
    if messages == [] then []
    else match SelectEntry(rules, messages[0])
      case None => Reported(rules, messages[1..])
      case Some(e) => [e] + Reported(rules, messages[1..])
  }

  predicate CleanEntry(e: Entry) {
    CleanName(e.rule) && CleanAll(e.args) && |TextOf(e)| < MSG_MAX_SIZE
  }

  lemma EntryPrints(line: string, m: string)
    ensures Sendable(line, m) == match EntryOf(line, m) case None => None case Some(e) => Some(TextOf(e))
    ensures EntryOf(line, m).Some? ==> CleanEntry(EntryOf(line, m).value)
  {
    hide Record;
    var n := Span(line, IsNameChar);
    assert CleanName(line[..n]);
    if At(line, n) == '|' && MatchText(line[n + 1..], m).Some? {
      MatchedIsClean(line[n + 1..], m);
    }
  }

  lemma {:induction false} SelectPrints(lines: seq<string>, m: string)
    ensures Select(lines, m) == match SelectEntry(lines, m) case None => None case Some(e) => Some(TextOf(e))
    ensures SelectEntry(lines, m).Some? ==> CleanEntry(SelectEntry(lines, m).value)
  {
    hide EntryOf, Sendable, CleanEntry, TextOf;
    if lines != [] {
      EntryPrints(lines[0], m);
      SelectPrints(lines[1..], m);
    }
  }

  lemma {:induction false} ReportedClean(rules: seq<string>, messages: seq<string>)
    ensures forall e <- Reported(rules, messages) :: CleanEntry(e)
    decreases |messages|
  {
    hide CleanEntry, SelectEntry;
    if messages != [] {
      SelectPrints(rules, messages[0]);
      ReportedClean(rules, messages[1..]);
    }
  }

  // ----- log lines with text read ahead

  /** The log line in the buffer of the monitor thread. */
  function LineIn(message: string): string {
    message[..Find(message, '\n')]
  }

  function LinesIn(messages: seq<string>): (lines: seq<string>)
    ensures |lines| == |messages| && forall k :: 0 <= k < |messages| ==> lines[k] == LineIn(messages[k])
  {
    seq(|messages|, i requires 0 <= i < |messages| => LineIn(messages[i]))
  }

  /** What has been read ahead behind the line does not go on like a timestamp. */
  predicate Settled(message: string) {
    var n := Find(message, '\n');
    n < |message| ==> !ReadsOn(message[n + 1..])
  }

  lemma EntryOfLine(rule: string, message: string)
    requires Settled(message)
    ensures EntryOf(rule, message) == EntryOf(rule, LineIn(message))
  {
    hide MatchText, ReadsOn, Record;
    var n, k := Find(message, '\n'), Span(rule, IsNameChar);
    if n < |message| {
      assert message == message[..n] + "\n" + message[n + 1..];
      if At(rule, k) == '|' { TextOfLine(rule[k + 1..], LineIn(message), message[n + 1..]); }
    } else {
      assert message[..n] == message;
    }
  }

  lemma {:induction false} SelectOfLine(rules: seq<string>, message: string)
    requires Settled(message)
    ensures SelectEntry(rules, message) == SelectEntry(rules, LineIn(message))
  {
    hide EntryOf, Settled, LineIn;
    if rules != [] {
      EntryOfLine(rules[0], message);
      SelectOfLine(rules[1..], message);
    }
  }

  /** Only the lines count, not how much was read ahead. */
  lemma {:induction false} ReportedOfLines(rules: seq<string>, messages: seq<string>)
    requires forall m <- messages :: Settled(m)
    ensures Reported(rules, messages) == Reported(rules, LinesIn(messages))
    decreases |messages|
  {
    hide SelectEntry, Settled, LineIn;
    if messages != [] {
      assert messages[0] in messages && forall m <- messages[1..] :: m in messages;
      SelectOfLine(rules, messages[0]);
      ReportedOfLines(rules, messages[1..]);
      assert LinesIn(messages)[1..] == LinesIn(messages[1..]);
    }
  }

  // ----- the agent's side of the transfer connection

  /** A record on its way, and the path of its source. */
  datatype Delivery = Delivery(path: string, entry: Entry)

  /** The flattened path in front of the record, the reversal of the sending application around both. */
  function Parcel(d: Delivery, little: bool): string {
    Turned(Flat(d.path) + "\t" + TextOf(d.entry), little)
  }

  function Parcels(ds: seq<Delivery>, little: bool): (ms: seq<string>)
    ensures |ms| == |ds| && forall k :: 0 <= k < |ds| ==> ms[k] == Parcel(ds[k], little)
  {
    if ds == [] then [] else [Parcel(ds[0], little)] + Parcels(ds[1..], little)
  }

  /** All entries of one source. */
  function From(path: string, es: seq<Entry>): (ds: seq<Delivery>)
    ensures |ds| == |es| && forall k :: 0 <= k < |es| ==> ds[k] == Delivery(path, es[k])
  {
    seq(|es|, i requires 0 <= i < |es| => Delivery(path, es[i]))
  }

  /** A path that fits the buffers it is copied to. */
  predicate Sensible(path: string) {
    Free(path, '\t') && Free(path, '\0') && |path| <= MSG_MAX_SIZE
  }

  predicate Shippable(d: Delivery) {
    Sensible(d.path) && CleanEntry(d.entry)
  }

  lemma ParcelFits(d: Delivery, little: bool)
    requires Shippable(d)
    ensures 0 < |Parcel(d, little)| < USHORT_RANGE
  {
    hide TextOf;
  }

  lemma ParcelsFit(ds: seq<Delivery>, little: bool)
    requires forall d <- ds :: Shippable(d)
    ensures forall m <- Parcels(ds, little) :: 0 < |m| < USHORT_RANGE
  {
    hide Parcel, Shippable;
    forall k | 0 <= k < |ds| ensures 0 < |Parcels(ds, little)[k]| < USHORT_RANGE {
      assert ds[k] in ds;
      ParcelFits(ds[k], little);
    }
  }

  lemma FromSendable(path: string, es: seq<Entry>)
    requires Sensible(path) && forall e <- es :: CleanEntry(e)
    ensures forall d <- From(path, es) :: Shippable(d)
  {
    hide CleanEntry, Sensible;
  }

  /** The monitor thread of a source: parse the line in each buffer, send what a rule matched. */
  method Monitor(source: InfoSource, messages: seq<string>, little: bool) returns (stream: string)
    requires source.Valid() && source.fmt.Some? && Sensible(source.path)
    requires forall m <- messages :: Free(m, '\0')
    ensures var ds := From(source.path, Reported(LinesOf(source.fmt.value), messages));
            (forall m <- Parcels(ds, little) :: |m| < USHORT_RANGE) && stream == Frames(Parcels(ds, little))
  {
    hide LinesOf, SelectEntry, Select, CleanEntry, Parcel, Sensible, Frame, From, Free;
    ghost var rules := LinesOf(source.fmt.value);
    ghost var sent: seq<Delivery> := [];
    stream := "";
    FromNothing(source.path);
    for i := 0 to |messages|
      invariant sent == From(source.path, Reported(rules, messages[..i]))
      invariant (forall m <- Parcels(sent, little) :: |m| < USHORT_RANGE)
      invariant stream == Frames(Parcels(sent, little))
    {
      assert messages[i] in messages;
      SelectPrints(rules, messages[i]);
      ReportedNext(rules, messages, i);
      var status, parsed := source.ParseEntry(messages[i]);
      if status == Parsed {
        ghost var e := SelectEntry(rules, messages[i]).value;
        ghost var d := Delivery(source.path, e);
        var turned := Turned(parsed, little);
        ParcelIs(d, little);
        ParcelFits(d, little);
        var bytes := SendVarmsg(turned, little);
        FramesAppend(Parcels(sent, little), turned);
        ParcelsNext(sent, little, d);
        FromNext(source.path, Reported(rules, messages[..i]), e);
        stream := stream + bytes;
        sent := sent + [d];
      } else {
        NoTail(Reported(rules, messages[..i]));
      }
    }
    assert messages[..|messages|] == messages;
  }

  lemma FromNothing(path: string)
    ensures From(path, []) == []
  {
  }

  lemma FromNext(path: string, es: seq<Entry>, e: Entry)
    ensures From(path, es + [e]) == From(path, es) + [Delivery(path, e)]
  {
  }

  lemma ParcelIs(d: Delivery, little: bool)
    ensures Parcel(d, little) == Turned(Flat(d.path) + "\t" + TextOf(d.entry), little)
  {
  }

  lemma {:induction false} ReportedConcat(rules: seq<string>, a: seq<string>, b: seq<string>)
    ensures Reported(rules, a + b) == Reported(rules, a) + Reported(rules, b)
    decreases |a|
  {
    hide SelectEntry;
    if a == [] {
      assert a + b == b;
    } else {
      assert (a + b)[1..] == a[1..] + b;
      ReportedConcat(rules, a[1..], b);
    }
  }

  lemma ReportedNext(rules: seq<string>, messages: seq<string>, i: nat)
    requires i < |messages|
    ensures Reported(rules, messages[..i + 1]) == Reported(rules, messages[..i]) +
            match SelectEntry(rules, messages[i]) case None => [] case Some(e) => [e]
  {
    hide SelectEntry;
    assert messages[..i + 1] == messages[..i] + [messages[i]];
    ReportedConcat(rules, messages[..i], [messages[i]]);
    assert [messages[i]][1..] == [] && Reported(rules, []) == [];
  }

  lemma ParcelsNext(ds: seq<Delivery>, little: bool, d: Delivery)
    ensures Parcels(ds + [d], little) == Parcels(ds, little) + [Parcel(d, little)]
  {
    hide Parcel;
  }

  /** Sources whose paths differ in slashes and underscores only share their rule file and their log file;
      no other sources do. */
  lemma SharedFiles(p: string, q: string)
    ensures Flat(p) == Flat(q) <==>
              |p| == |q| && forall k :: 0 <= k < |p| ==> p[k] == q[k] || (p[k] in "/_" && q[k] in "/_")
    ensures Flat(p + ".fmt") == Flat(q + ".fmt") <==> Flat(p) == Flat(q)
  {
    assert Flat(p + ".fmt") == Flat(p) + ".fmt" && Flat(q + ".fmt") == Flat(q) + ".fmt";
    assert (Flat(p) + ".fmt")[..|p|] == Flat(p) && (Flat(q) + ".fmt")[..|q|] == Flat(q);
    if Flat(p) == Flat(q) {
      forall k | 0 <= k < |p| ensures p[k] == q[k] || (p[k] in "/_" && q[k] in "/_") {
        assert Flat(p)[k] == Flat(q)[k];
      }
    }
  }

  // ----- the log files of one agent

  /** The entries stored under one name, whatever source they come from. */
  function EntriesIn(ds: seq<Delivery>, name: string): seq<Entry> {
    if ds == [] then []
    else (if Flat(ds[0].path) == name then [ds[0].entry] else []) + EntriesIn(ds[1..], name)
  }

  function FileNames(ds: seq<Delivery>): set<string> {
    set d <- ds :: Flat(d.path)
  }

  /** One file for each name: the entries stored under it, in order, with separators between them. */
  function LogFiles(ds: seq<Delivery>): map<string, string> {
    map name <- FileNames(ds) :: LogText(EntriesIn(ds, name))
  }

  lemma {:induction false} EntriesNext(ds: seq<Delivery>, d: Delivery, name: string)
    ensures EntriesIn(ds + [d], name) == EntriesIn(ds, name) + if Flat(d.path) == name then [d.entry] else []
    decreases |ds|
  {
    hide Flat;
    var last := if Flat(d.path) == name then [d.entry] else [];
    if ds == [] {
      assert (ds + [d])[1..] == [];
      NoTail(last);
    } else {
      assert (ds + [d])[1..] == ds[1..] + [d];
      EntriesNext(ds[1..], d, name);
      Assoc(if Flat(ds[0].path) == name then [ds[0].entry] else [], EntriesIn(ds[1..], name), last);
    }
  }

  lemma {:induction false} EntriesOfNone(ds: seq<Delivery>, name: string)
    ensures EntriesIn(ds, name) == [] <==> name !in FileNames(ds)
    decreases |ds|
  {
    if ds != [] {
      EntriesOfNone(ds[1..], name);
      assert ds[0] in ds && forall d <- ds[1..] :: d in ds;
      if name in FileNames(ds) {
        var d :| d in ds && Flat(d.path) == name;
        assert d == ds[0] || d in ds[1..];
      }
    }
  }

  lemma {:induction false} EntriesOfSource(path: string, es: seq<Entry>)
    ensures EntriesIn(From(path, es), Flat(path)) == es
    decreases |es|
  {
    if es != [] {
      assert From(path, es)[1..] == From(path, es[1..]);
      EntriesOfSource(path, es[1..]);
      assert es == [es[0]] + es[1..];
    }
  }

  lemma LogNext(es: seq<Entry>, e: Entry)
    ensures LogText(es + [e]) == if es == [] then TextOf(e) else LogText(es) + SEPARATOR + TextOf(e)
  {
    hide TextOf;
    TextsNext(es, e);
    if es == [] {
      assert TextsOf(es) + [TextOf(e)] == [TextOf(e)];
    } else {
      JoinAppend(TextsOf(es), TextOf(e), SEPARATOR);
    }
  }

  lemma TextsNext(es: seq<Entry>, e: Entry)
    ensures TextsOf(es + [e]) == TextsOf(es) + [TextOf(e)]
  {
    hide TextOf;
  }

  /** A record goes to the end of one file, and the other files stay as they are. */
  predicate Grown(files: map<string, string>, more: map<string, string>, name: string, record: string) {
    more.Keys == files.Keys + {name}
    && more[name] == (if name in files then files[name] + SEPARATOR + record else record)
    && forall other <- files :: other != name ==> more[other] == files[other]
  }

  lemma LogFilesGrow(ds: seq<Delivery>, d: Delivery, more: map<string, string>)
    requires Grown(LogFiles(ds), more, Flat(d.path), TextOf(d.entry))
    ensures more == LogFiles(ds + [d])
  {
    hide LogText, TextOf, Flat, EntriesIn;
    var name, all := Flat(d.path), LogFiles(ds + [d]);
    assert FileNames(ds + [d]) == FileNames(ds) + {name};
    forall other | other in all ensures all[other] == more[other] {
      EntriesNext(ds, d, other);
      EntriesOfNone(ds, other);
      NoTail(EntriesIn(ds, other));
      LogNext(EntriesIn(ds, other), d.entry);
    }
  }

  /** The log directory of one agent. */
  class LogStore {
    var files: map<string, string>

    constructor ()
      ensures files == map[]
    {
      files := map[];
    }

    /** The text in front of the first tab names the file; a file that exists gets a separator first. */
    method Append(message: string, ghost name: string, ghost record: string)
      requires message == name + "\t" + record && Free(name, '\t')
      modifies this
      ensures Grown(old(files), files, name, record)
    {
      var p := Find(message, '\t');
      assert message[..|name|] == name && message[|name| + 1..] == record;
      FindIs(message, '\t', |name|);
      var file := message[..p];
      var firstTime := file !in files;
      var content := if firstTime then "" else files[file];
      if !firstTime {
        content := content + SEPARATOR;
      }
      content := content + message[p + 1..];
      assert firstTime ==> "" + record == record;
      files := files[file := content];
    }

    /** The listener of the transfer connection, until it ends or breaks.  When the hosts differ in
        endianness, only files with turned-round names come about. */
    method Listen(sock: Socket, sender: bool, little: bool, ghost ds: seq<Delivery>, ghost tail: string)
      requires forall d <- ds :: Shippable(d)
      requires forall m <- Parcels(ds, sender) :: |m| < USHORT_RANGE
      requires sock.incoming == Frames(Parcels(ds, sender)) + tail && FirstMessage(tail, sock.errors) == ""
      requires files == map[]
      modifies this, sock
      ensures sender == little ==> files == LogFiles(ds)
      ensures sender != little ==> forall name <- files :: name != "" && name[0] == '}'
    {
      hide Shippable, Parcel, Parcels, Frame, Frames, Messages, FirstMessage, TextOf, LogFiles, Turned, Find, Flat,
           Grown;
      NoFiles();
      ParcelsFit(ds, sender);
      FramesRoundTrip(Parcels(ds, sender), tail, sock.errors);
      var messages := ReceiveAll(sock, little);
      assert ds[..0] == [];
      for i := 0 to |messages|
        invariant sender == little ==> files == LogFiles(ds[..i])
        invariant sender != little ==> forall name <- files :: name != "" && name[0] == '}'
      {
        var message := Turned(messages[i], little);
        ghost var before := files;
        assert ds[i] in ds;
        ghost var name, record;
        if sender == little {
          OpenParcel(ds[i], little);
          name, record := Flat(ds[i].path), TextOf(ds[i].entry);
        } else {
          name, record := TurnedParcel(ds[i], sender);
        }
        Append(message, name, record);
        if sender == little {
          LogFilesGrow(ds[..i], ds[i], files);
          assert ds[..i + 1] == ds[..i] + [ds[i]];
        } else {
          OnlyGrown(before, files, name, record);
        }
      }
      assert ds[..|ds|] == ds;
    }
  }

  lemma NoFiles()
    ensures LogFiles([]) == map[]
  {
  }

  lemma OnlyGrown(files: map<string, string>, more: map<string, string>, name: string, record: string)
    requires Grown(files, more, name, record)
    ensures more.Keys == files.Keys + {name}
  {
  }

  /** The receiving application undoes the reversal and finds the tab behind the path. */
  lemma OpenParcel(d: Delivery, little: bool)
    requires Shippable(d)
    ensures Turned(Parcel(d, little), little) == Flat(d.path) + "\t" + TextOf(d.entry) && Free(Flat(d.path), '\t')
  {
    hide TextOf;
    TurnedTwice(Flat(d.path) + "\t" + TextOf(d.entry), little);
  }

  /** On the other kind of host the message is back to front, and starts with the end of its record. */
  lemma TurnedParcel(d: Delivery, sender: bool) returns (name: string, record: string)
    ensures Turned(Parcel(d, sender), !sender) == name + "\t" + record && Free(name, '\t')
    ensures name != "" && name[0] == '}'
  {
    hide TextOf, Flat, Turned, Reversed, Find;
    var f, text := Flat(d.path), TextOf(d.entry);
    var message := Reversed(f + "\t" + text);
    EndsInBrace(d.entry);
    OtherHost(f + "\t" + text, sender);
    BackToFront(f, text);
    var p := Find(message, '\t');
    name, record := message[..p], message[p + 1..];
    assert message == message[..p] + [message[p]] + message[p + 1..];
  }

  lemma OtherHost(plain: string, sender: bool)
    ensures Turned(Turned(plain, sender), !sender) == Reversed(plain)
  {
  }

  lemma BackToFront(f: string, text: string)
    requires text != "" && text[|text| - 1] == '}'
    ensures var message := Reversed(f + "\t" + text); message[0] == '}' && 0 < Find(message, '\t') < |message|
  {
    var plain := f + "\t" + text;
    var message := Reversed(plain);
    assert message[0] == plain[|plain| - 1] == '}';
    assert message[|text|] == plain[|f|] == '\t';
    NoneBefore(message, '\t');
    assert message[..|message|] == message;
  }

  lemma EndsInBrace(e: Entry)
    ensures TextOf(e) != "" && TextOf(e)[|TextOf(e)| - 1] == '}'
  {
  }

  // ----- end to end

  /** The answer that the log lines themselves call for: the number of those that meet the conditions,
      unless the query is refused or no line was ever stored. */
  function QueryOnLines(rules: seq<string>, messages: seq<string>, query: string): Option<nat> {
    match Parse(query)
    case Bad(_) => None
    case Conds(cs) => if Reported(rules, messages) == [] then None else Some(CountLines(rules, messages, cs))
  }

  /** The lines go through an agent, the wire and a log file, and come out as the answer to a query.  With
      hosts of different endianness the query finds no file. */
  method EndToEnd(source: InfoSource, messages: seq<string>, query: string, agent: bool, server: bool)
    returns (answer: Option<nat>)
    requires source.Valid() && source.fmt.Some? && Sensible(source.path)
    requires forall m <- messages :: Free(m, '\0')
    requires agent == server ==> Storable(Reported(LinesOf(source.fmt.value), messages))
    requires agent != server ==> source.path == "" || source.path[0] != '}'
    ensures answer == if agent == server then QueryOnLines(LinesOf(source.fmt.value), messages, query) else None
  {
    hide LinesOf, Reported, Storable, Parcels, Frames, LogText, Sensible, CleanEntry, Searchable, Answer, From,
         ParseFrom, CountLines, EntriesIn;
    ghost var es := Reported(LinesOf(source.fmt.value), messages);
    ghost var ds := From(source.path, es);
    ReportedClean(LinesOf(source.fmt.value), messages);
    FromSendable(source.path, es);
    var stream := Monitor(source, messages, agent);
    var sock := new Socket(stream, 0);
    NoMessage(0);
    NoTail(stream);
    var store := new LogStore();
    store.Listen(sock, agent, server, ds, "");
    var name := source.FlatPath();
    if agent == server {
      EntriesOfSource(source.path, es);
      EntriesOfNone(ds, name);
    }
    if name !in store.files {
      // the query branch cannot open the log file
      return None;
    }
    AnswerOnLines(LinesOf(source.fmt.value), messages, query);
    answer := RunQuery(store.files[name], query);
  }

  /** There is no answer exactly when the query is refused, or no rule yields a record for any line, so that no
      file was ever written. */
  lemma AnswerGiven(rules: seq<string>, messages: seq<string>, query: string)
    ensures QueryOnLines(rules, messages, query).None? <==>
              Parse(query).Bad? || forall m, rule :: m in messages && rule in rules ==> Sendable(rule, m).None?
  {
    hide Parse, Sendable;
    NothingReported(rules, messages);
  }

  lemma {:induction false} NothingReported(rules: seq<string>, messages: seq<string>)
    ensures Reported(rules, messages) == [] <==>
              forall m, rule :: m in messages && rule in rules ==> Sendable(rule, m).None?
    decreases |messages|
  {
    hide Sendable, SelectEntry;
    if messages != [] {
      SelectPrints(rules, messages[0]);
      SelectFails(rules, messages[0]);
      NothingReported(rules, messages[1..]);
      assert forall m :: m in messages <==> m == messages[0] || m in messages[1..];
    }
  }

  lemma AnswerOnLines(rules: seq<string>, messages: seq<string>, query: string)
    requires Storable(Reported(rules, messages)) && Reported(rules, messages) != []
    ensures var content := LogText(Reported(rules, messages));
            Free(content, '\0') && Searchable(content) && Answer(content, query) == QueryOnLines(rules, messages, query)
  {
    hide Reported, Storable, LogText, ParseFrom, Scan, Searchable, CountAccepted;
    QueryCounts(Reported(rules, messages), []);
    if ParseFrom(query).Conds? {
      ParsedAskable(query);
      QueryCounts(Reported(rules, messages), ParseFrom(query).list);
      CountsLines(rules, messages, ParseFrom(query).list);
    }
  }

  /** The same answer comes from the bare lines, as long as nothing read ahead goes on like a timestamp. */
  lemma QueryOnBareLines(rules: seq<string>, messages: seq<string>, query: string)
    requires forall m <- messages :: Settled(m)
    ensures QueryOnLines(rules, messages, query) == QueryOnLines(rules, LinesIn(messages), query)
  {
    hide Settled, Reported, CountEntries, LineIn;
    ReportedOfLines(rules, messages);
    if Parse(query).Conds? {
      CountsLines(rules, messages, Parse(query).list);
      CountsLines(rules, LinesIn(messages), Parse(query).list);
    }
  }

  /** What the answer counts, in terms of lines: those whose selected rule reports an entry that meets the
      conditions. */
  lemma {:induction false} CountsLines(rules: seq<string>, messages: seq<string>, cs: seq<Cond>)
    ensures CountEntries(Reported(rules, messages), cs) == CountLines(rules, messages, cs)
    decreases |messages|
  {
    hide SelectEntry, Meets;
    if messages != [] {
      CountsLines(rules, messages[1..], cs);
      var more := Reported(rules, messages[1..]);
      match SelectEntry(rules, messages[0])
      case None =>
      case Some(e) => assert ([e] + more)[1..] == more;
    }
  }

  predicate LineMeets(rules: seq<string>, m: string, cs: seq<Cond>) {
    match SelectEntry(rules, m) case None => false case Some(e) => Meets(e, cs)
  }

  function CountLines(rules: seq<string>, messages: seq<string>, cs: seq<Cond>): nat {
    if messages == [] then 0
    else (if LineMeets(rules, messages[0], cs) then 1 else 0) + CountLines(rules, messages[1..], cs)
  }
}
