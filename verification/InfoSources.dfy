/** A log source of the agent and its rule file: matching entries, and keeping the rules. */
module InfoSources {
  import opened CStrings
  import opened CBuffers
  import opened RuleFiles
  import opened RuleParser

  const ENTRIES_PER_PAGE: nat := 10

  // ----- what the operations mean on the lines of the file

  /** The first rule in file order that yields a record short enough to send. */
  function Select(lines: seq<string>, m: string): Option<string> {
    if lines == [] then None
    else if Sendable(lines[0], m).Some? then Sendable(lines[0], m)
    else Select(lines[1..], m)
  }

  /** Only the earliest rule counts. */
  lemma {:induction false} SelectIsFirst(lines: seq<string>, m: string, k: nat)
    requires k < |lines| && Sendable(lines[k], m).Some?
    requires forall j :: 0 <= j < k ==> Sendable(lines[j], m).None?
    ensures Select(lines, m) == Sendable(lines[k], m)
  {
    hide Sendable;
    if k > 0 {
      assert lines[1..][k - 1] == lines[k];
      assert forall j :: 0 <= j < k - 1 ==> lines[1..][j] == lines[j + 1];
      SelectIsFirst(lines[1..], m, k - 1);
    }
  }

  /** Parsing an entry fails exactly when no rule yields a record that can be sent. */
  lemma {:induction false} SelectFails(lines: seq<string>, m: string)
    ensures Select(lines, m).None? <==> forall k :: 0 <= k < |lines| ==> Sendable(lines[k], m).None?
  {
    hide Sendable;
    if lines != [] {
      SelectFails(lines[1..], m);
      assert forall k :: 1 <= k < |lines| ==> lines[k] == lines[1..][k - 1];
      assert forall k :: 0 <= k < |lines| - 1 ==> lines[1..][k] == lines[k + 1];
    }
  }

  predicate HasBar(line: string) {
    Find(line, '|') < |line|
  }

  /** The text in front of the first bar. */
  function NameOf(line: string): string {
    line[..Find(line, '|')]
  }

  function TemplateOf(line: string): string
    requires HasBar(line)
  {
    line[Find(line, '|') + 1..]
  }

  /** `strstr(rule, name) == rule && rule[strlen(name)] == '|'` */
  predicate Named(line: string, name: string) {
    name + "|" <= line
  }

  predicate HasName(lines: seq<string>, name: string) {
    lines != [] && (Named(lines[0], name) || HasName(lines[1..], name))
  }

  /** The file behind an addition. */
  function Appended(content: string, rule: string): string {
    if content == "" then rule else content + "\n" + rule
  }

  predicate Addable(content: string, rule: string) {
    HasBar(rule) && !HasName(LinesOf(content), NameOf(rule))
  }

  function Added(content: string, rule: string): string {
    if Addable(content, rule) then Appended(content, rule) else content
  }

  /** The name and a bar at the start of some line, or running over the ends of lines from there, as far as
      the buffer reaches. */
  predicate HasAhead(data: string, name: string)
    decreases |data|
  {
    data != "" && (name + "|" <= Window(data) || HasAhead(Behind(data), name))
  }

  /** What an addition may do.  A name that runs over the end of a line is found when the reads happen to
      bring enough of the file into the buffer, and else not. */
  predicate MayAdd(content: string, rule: string, after: string) {
    if !Addable(content, rule) then after == content
    else after == Appended(content, rule) || (after == content && HasAhead(content, NameOf(rule)))
  }

  /** The lines a removal keeps: malformed ones go as well. */
  function Kept(lines: seq<string>, name: string): seq<string> {
    if lines == [] then [] else KeptLine(lines[0], name) + Kept(lines[1..], name)
  }

  function KeptLine(line: string, name: string): seq<string> {
    if HasBar(line) && !Named(line, name) then [line] else []
  }

  function Removed(content: string, name: string): string {
    if name == "" then content else Join(Kept(LinesOf(content), name), "\n")
  }

  datatype Reply = Reply(text: string) | Crash

  /** The template of the first line with that name.  A line without a bar in front of it makes the
      agent write through a null pointer. */
  function Shown(lines: seq<string>, name: string): Reply {
    if lines == [] then Reply("")
    else if !HasBar(lines[0]) then Crash
    else if NameOf(lines[0]) == name then Reply(TemplateOf(lines[0]))
    else Shown(lines[1..], name)
  }

  /** What `SHOW_RULE` answers: an empty text is replaced by the message for a missing rule. */
  function ShowReply(lines: seq<string>, name: string): Reply {
    match Shown(lines, name)
    case Crash => Crash
    case Reply(text) => Reply(if text == "" then RULE_NOT_FOUND else text)
  }

  const RULE_NOT_FOUND := "Error: Rule not found"

  function WellFormedCount(lines: seq<string>): nat {
    if lines == [] then 0 else (if HasBar(lines[0]) then 1 else 0) + WellFormedCount(lines[1..])
  }

  /** `HOWMANY_RULEPAGES` */
  function PageCount(lines: seq<string>): nat {
    PagesFor(WellFormedCount(lines))
  }

  function PagesFor(entries: nat): nat {
    entries / ENTRIES_PER_PAGE + if entries % ENTRIES_PER_PAGE > 0 then 1 else 0
  }

  /** Whether the `nr`-th entry, counted from one, is on the page. */
  predicate OnPage(nr: nat, page: int) {
    (nr / ENTRIES_PER_PAGE + 1 == page && nr % ENTRIES_PER_PAGE != 0) ||
    (nr / ENTRIES_PER_PAGE + 1 == page + 1 && nr % ENTRIES_PER_PAGE == 0)
  }

  /** The names of a page, each with a comma, from the entry behind the first `nr`.  A malformed line
      takes back its number only when it is met on the page. */
  function PageText(lines: seq<string>, nr: nat, page: int): string {
    if lines == [] || nr / ENTRIES_PER_PAGE + 1 > page + 1 then ""
    else if !OnPage(nr + 1, page) then PageText(lines[1..], nr + 1, page)
    else if HasBar(lines[0]) then NameOf(lines[0]) + "," + PageText(lines[1..], nr + 1, page)
    else PageText(lines[1..], nr, page)
  }

  function PageReply(lines: seq<string>, page: int): string {
    if page <= 0 then "Invalid page"
    else
      var text := PageText(lines, 0, page);
      if text == "" then "Error: Invalid page" else text[..|text| - 1]
  }

  // ----- the same on files of any lines

  /** A name is in use when some line starts with it and a bar. */
  lemma {:induction false} HasNameIs(lines: seq<string>, name: string)
    ensures HasName(lines, name) <==> exists k :: 0 <= k < |lines| && name + "|" <= lines[k]
    decreases |lines|
  {
    if lines != [] {
      HasNameIs(lines[1..], name);
      assert forall k :: 1 <= k < |lines| ==> lines[k] == lines[1..][k - 1];
      assert forall k :: 0 <= k < |lines| - 1 ==> lines[1..][k] == lines[k + 1];
    }
  }

  /** Whatever the lines around it, a line stays exactly when it has a bar and does not start with the name and
      a bar; blank lines go with every removal. */
  lemma {:induction false} KeptIs(before: seq<string>, line: string, behind: seq<string>, name: string)
    ensures Kept(before + [line] + behind, name)
         == Kept(before, name) + (if '|' in line && !(name + "|" <= line) then [line] else []) + Kept(behind, name)
    decreases |before|
  {
    var all := before + [line] + behind;
    if before == [] {
      assert all[1..] == behind && all[0] == line;
      BarIs(line);
    } else {
      hide KeptLine, Named, HasBar;
      assert all[1..] == before[1..] + [line] + behind;
      KeptIs(before[1..], line, behind, name);
      var one := if '|' in line && !(name + "|" <= line) then [line] else [];
      Assoc(KeptLine(before[0], name), Kept(before[1..], name), one);
      Assoc(KeptLine(before[0], name), Kept(before[1..], name) + one, Kept(behind, name));
    }
  }

  /** A line is its name, a bar, and its template. */
  lemma BarIs(line: string)
    ensures HasBar(line) <==> '|' in line
    ensures HasBar(line) ==> Free(NameOf(line), '|') && line == NameOf(line) + "|" + TemplateOf(line)
  {
    NoneBefore(line, '|');
  }

  /** Showing looks at the lines in order: behind lines of other names, the line of that name answers its
      template, a line without a bar crashes, and the end answers that there is no such rule. */
  lemma {:induction false} ShownIs(lines: seq<string>, name: string, k: nat)
    requires k <= |lines| && forall j :: 0 <= j < k ==> '|' in lines[j] && !(name + "|" <= lines[j])
    requires Free(name, '|')
    ensures k == |lines| ==> ShowReply(lines, name) == Reply("Error: Rule not found")
    ensures k < |lines| && '|' !in lines[k] ==> ShowReply(lines, name) == Crash
    ensures k < |lines| && name + "|" <= lines[k] ==>
              ShowReply(lines, name)
              == Reply(if |lines[k]| == |name| + 1 then "Error: Rule not found" else lines[k][|name| + 1..])
    decreases k
  {
    hide ShowReply;
    if k > 0 {
      assert forall j :: 0 <= j < k - 1 ==> lines[1..][j] == lines[j + 1];
      assert k < |lines| ==> lines[1..][k - 1] == lines[k];
      ShownBehind(lines, name);
      ShownIs(lines[1..], name, k - 1);
    } else {
      ShownHere(lines, name);
    }
  }

  lemma ShownBehind(lines: seq<string>, name: string)
    requires lines != [] && Free(name, '|') && '|' in lines[0] && !(name + "|" <= lines[0])
    ensures ShowReply(lines, name) == ShowReply(lines[1..], name)
  {
    hide HasBar, NameOf;
    OtherName(lines[0], name);
  }

  lemma ShownHere(lines: seq<string>, name: string)
    requires Free(name, '|')
    ensures lines == [] ==> ShowReply(lines, name) == Reply("Error: Rule not found")
    ensures lines != [] && '|' !in lines[0] ==> ShowReply(lines, name) == Crash
    ensures lines != [] && name + "|" <= lines[0] ==>
              ShowReply(lines, name)
              == Reply(if |lines[0]| == |name| + 1 then "Error: Rule not found" else lines[0][|name| + 1..])
  {
    hide HasBar, NameOf, TemplateOf;
    if lines != [] {
      BarIs(lines[0]);
      if name + "|" <= lines[0] { NameFirst(lines[0], name); }
    }
  }

  lemma OtherName(line: string, name: string)
    requires Free(name, '|') && '|' in line && !(name + "|" <= line)
    ensures HasBar(line) && NameOf(line) != name
  {
    BarIs(line);
  }

  lemma NameFirst(line: string, name: string)
    requires Free(name, '|') && name + "|" <= line
    ensures HasBar(line) && NameOf(line) == name && TemplateOf(line) == line[|name| + 1..]
  {
    var u := name + "|";
    assert line[..|u|] == u && line[..|name|] == u[..|name|] == name && line[|name|] == u[|name|];
    FindIs(line, '|', |name|);
  }

  // ----- the source

  datatype ParseStatus = Failed | Unparsed | Parsed

  /** A path as it appears in file names: without slashes, and different from the path only where a slash
      became an underscore. */
  function Flat(path: string): (name: string)
    ensures |name| == |path| && Free(name, '/')
    ensures forall k :: 0 <= k < |path| ==> name[k] == path[k] || (path[k] == '/' && name[k] == '_')
  {
    seq(|path|, i requires 0 <= i < |path| => if path[i] == '/' then '_' else path[i])
  }

  /** A path without slashes is its own file name. */
  lemma FlatKeeps(path: string)
    ensures Flat(path) == path <==> Free(path, '/')
  {
  }

  /** The contract of `Flat` leaves one name only. */
  lemma FlatIs(path: string, name: string)
    requires |name| == |path| && Free(name, '/')
    requires forall k :: 0 <= k < |path| ==> name[k] == path[k] || (path[k] == '/' && name[k] == '_')
    ensures name == Flat(path)
  {
    assert forall k :: 0 <= k < |path| ==> name[k] == Flat(path)[k];
  }

  class InfoSource {
    const path: string
    /** The rule file; `None` while it cannot be opened. */
    var fmt: Option<string>

    ghost predicate Valid()
      reads this
    {
      fmt.Some? ==> Free(fmt.value, '\0')
    }

    constructor (path: string, fmt: Option<string>)
      requires fmt.Some? ==> Free(fmt.value, '\0')
      ensures Valid() && this.path == path && this.fmt == fmt
    {
      this.path, this.fmt := path, fmt;
    }

    method FlatPath() returns (name: string)
      ensures |name| == |path| && Free(name, '/')
      ensures forall k :: 0 <= k < |path| ==> name[k] == path[k] || (path[k] == '/' && name[k] == '_')
      ensures name == Flat(path)
    {
      name := path;
      for i := 0 to |name|
        invariant |name| == |path|
        invariant forall k :: 0 <= k < i ==> name[k] != '/'
        invariant forall k :: 0 <= k < i ==> name[k] == path[k] || (path[k] == '/' && name[k] == '_')
        invariant forall k :: i <= k < |name| ==> name[k] == path[k]
      {
        if name[i] == '/' {
          name := name[i := '_'];
        }
      }
      FlatIs(path, name);
    }

    /** `parse_entry`: the record of the first rule that matches and fits, behind the path and a tab. */
    method ParseEntry(message: string) returns (status: ParseStatus, parsed: string)
      requires Valid() && Free(message, '\0')
      ensures |parsed| > |path| && Free(parsed[..|path|], '/') && parsed[|path|] == '\t'
      ensures forall k :: 0 <= k < |path| ==> parsed[k] == path[k] || (path[k] == '/' && parsed[k] == '_')
      ensures fmt.None? ==> status == Failed
      ensures fmt.Some? ==>
        match Select(LinesOf(fmt.value), message)
        case None => status == Unparsed
        case Some(record) => status == Parsed && parsed == Flat(path) + "\t" + record
    {
      hide LinesOf, Sendable, FirstLine, Behind;
      parsed := FlatPath();
      ghost var name := parsed;
      parsed := parsed + "\t";
      if fmt.None? {
        assert parsed[..|path|] == name;
        return Failed, parsed;
      }
      var reader := new LineReader(fmt.value);
      var couldParse, json := false, "";
      var more := reader.More();
      while !couldParse && more
        invariant reader.Valid() && fresh(reader.Footprint())
        invariant !couldParse ==> more == (reader.Data() != "")
        invariant !couldParse ==> Select(LinesOf(reader.Data()), message) == Select(LinesOf(fmt.value), message)
        invariant couldParse ==> Select(LinesOf(fmt.value), message) == Some(json)
        decreases !couldParse, |reader.Data()|
      {
        LinesStep(reader.Data());
        ghost var line := reader.Line();
        couldParse, json := ParseRule(reader.buffer.Text(), message);
        reader.Next();
        if !couldParse { more := reader.More(); }
      }
      LinesOfNothing();
      parsed := parsed + json;
      assert parsed[..|path|] == name;
      status := if couldParse then Parsed else Unparsed;
    }

    /** `has_rule`.  For a name with a newline the answer may depend on how much has been read ahead. */
    method HasRule(name: string) returns (has: bool)
      requires Valid() && Free(name, '\0')
      ensures fmt.None? ==> !has
      ensures fmt.Some? && HasName(LinesOf(fmt.value), name) ==> has
      ensures fmt.Some? && has ==> HasAhead(fmt.value, name)
      ensures IsLine(name) ==> has == (fmt.Some? && HasName(LinesOf(fmt.value), name))
    {
      hide LinesOf, FirstLine, Behind, HasAhead, Window, Find, Free;
      if fmt.None? {
        return false;
      }
      if IsLine(name) { AheadIsName(fmt.value, name); }
      var reader := new LineReader(fmt.value);
      var more := reader.More();
      while more
        invariant reader.Valid() && fresh(reader.Footprint()) && more == (reader.Data() != "")
        invariant HasName(LinesOf(reader.Data()), name) == HasName(LinesOf(fmt.value), name)
        invariant HasAhead(reader.Data(), name) ==> HasAhead(fmt.value, name)
        decreases |reader.Data()|
      {
        LinesStep(reader.Data());
        var rule := reader.buffer.Text();
        ghost var line := reader.Line();
        NamedInBuffer(rule, reader.file.unread, line, name);
        AheadStep(reader.Data(), name);
        if name <= rule && At(rule, |name|) == '|' {
          return true;
        }
        reader.Next();
        more := reader.More();
      }
      LinesOfNothing();
      return false;
    }

    /** `add_rule`: the text in front of the first bar is the name; a new rule goes behind a newline. */
    method AddRule(rule: string) returns (ok: bool)
      requires Valid() && Free(rule, '\0')
      modifies this
      ensures Valid() && fmt.None? == old(fmt).None? && (fmt.None? ==> !ok)
      ensures fmt.Some? ==> MayAdd(old(fmt).value, rule, fmt.value) && ok == (fmt != old(fmt))
    {
      hide LinesOf, HasName, HasAhead;
      var p := Find(rule, '|');
      if p == |rule| {
        return false;
      }
      var has := HasRule(rule[..p]);
      if has || fmt.None? {
        return false;
      }
      var content := fmt.value;
      if |content| != 0 {
        content := content + "\n";
      }
      assert content + rule == Appended(fmt.value, rule) by {
        if fmt.value == "" { assert "" + rule == rule; }
      }
      fmt := Some(content + rule);
      return true;
    }

    /** The `ADDRLE` command. */
    method TreatAdd(rule: string) returns (response: string)
      requires Valid() && Free(rule, '\0')
      modifies this
      ensures Valid() && fmt.None? == old(fmt).None?
      ensures fmt.Some? ==> MayAdd(old(fmt).value, rule, fmt.value) && (response == "Success" <==> fmt != old(fmt))
      ensures !HasBar(rule) ==> response == "Invalid format"
      ensures HasBar(rule) && fmt.None? ==> response == "Error: Couldn't add rule"
      ensures HasBar(rule) && fmt.Some? && HasName(LinesOf(old(fmt).value), NameOf(rule)) ==>
                response == "Error: Rule name already in use"
      ensures HasBar(rule) && fmt.Some? && IsLine(NameOf(rule)) ==>
                response == if Addable(old(fmt).value, rule) then "Success" else "Error: Rule name already in use"
    {
      hide LinesOf, HasName, HasAhead;
      var p := Find(rule, '|');
      if p == |rule| {
        return "Invalid format";
      }
      if fmt.Some? && IsLine(rule[..p]) { AheadIsName(fmt.value, rule[..p]); }
      var has := HasRule(rule[..p]);
      if has {
        return "Error: Rule name already in use";
      }
      var ok := AddRule(rule);
      if !ok {
        return "Error: Couldn't add rule";
      }
      return "Success";
    }

    /** The `RMVRLE` command: the kept lines are written to a new file, which replaces the old one. */
    method TreatRemove(name: string) returns (response: string)
      requires Valid() && Free(name, '\0')
      modifies this
      ensures Valid()
      ensures fmt == match old(fmt) case None => None case Some(content) => Some(Removed(content, name))
      ensures response ==
        if name == "" then "Invalid format"
        else if old(fmt).None? then "Error: Opening rule file"
        else if HasName(LinesOf(old(fmt).value), name) then "Success"
        else "Error: Rule not found"
    {
      hide LinesOf, Join, Kept, HasName;
      if |name| == 0 {
        return "Invalid format";
      }
      if fmt.None? {
        return "Error: Opening rule file";
      }
      var written, found := CopyWithout(fmt.value, name);
      fmt := Some(written);
      response := if found then "Success" else "Error: Rule not found";
    }

    /** The `SHOW_RULE` command.  A rule whose template is empty answers like a rule that is not there. */
    method TreatShow(name: string) returns (response: Reply)
      requires Valid()
      ensures response ==
        if fmt.None? then Reply("Error: Couldn't open rule file")
        else ShowReply(LinesOf(fmt.value), name)
    {
      hide LinesOf, FirstLine, Behind;
      if fmt.None? {
        return Reply("Error: Couldn't open rule file");
      }
      var reader := new LineReader(fmt.value);
      var text := "";
      var more := reader.More();
      while more
        invariant reader.Valid() && fresh(reader.Footprint()) && more == (reader.Data() != "")
        invariant text == "" && Shown(LinesOf(reader.Data()), name) == Shown(LinesOf(fmt.value), name)
        decreases |reader.Data()|
      {
        LinesStep(reader.Data());
        var entry := reader.Line();
        var p := Find(entry, '|');
        if p == |entry| {
          return Crash;
        }
        if entry[..p] == name {
          text := entry[p + 1..];
          return Reply(if |text| == 0 then RULE_NOT_FOUND else text);
        }
        reader.Next();
        more := reader.More();
      }
      LinesOfNothing();
      return Reply(RULE_NOT_FOUND);
    }

    /** The `HOWMANY_RULEPAGES` command. */
    method TreatHowMany() returns (pages: Option<nat>)
      requires Valid()
      ensures pages == match fmt case None => None case Some(content) => Some(PageCount(LinesOf(content)))
    {
      hide LinesOf, FirstLine, Behind, WellFormedCount, PagesFor;
      if fmt.None? {
        return None;
      }
      var reader := new LineReader(fmt.value);
      var entries: nat := 0;
      var more := reader.More();
      while more
        invariant reader.Valid() && fresh(reader.Footprint()) && more == (reader.Data() != "")
        invariant entries + WellFormedCount(LinesOf(reader.Data())) == WellFormedCount(LinesOf(fmt.value))
        decreases |reader.Data()|
      {
        LinesStep(reader.Data());
        CountStep(LinesOf(reader.Data()));
        entries := entries + 1;
        var entry := reader.Line();
        if Find(entry, '|') == |entry| {
          entries := entries - 1;
        }
        reader.Next();
        more := reader.More();
      }
      LinesOfNothing();
      CountStep([]);
      return Some(PagesFor(entries));
    }

    /** The `LIST_RULEPAGE` command. */
    method TreatListPage(pageText: string) returns (response: string)
      requires Valid()
      ensures response ==
        if Atoi(pageText) > 0 && fmt.None? then "Error: Couldn't open rule file"
        else PageReply(if fmt.None? then [] else LinesOf(fmt.value), Atoi(pageText))
    {
      hide LinesOf, FirstLine, Behind, PageText, Atoi;
      var page := Atoi(pageText);
      if page <= 0 {
        return "Invalid page";
      }
      if fmt.None? {
        return "Error: Couldn't open rule file";
      }
      response := CollectPage(fmt.value, page);
      if |response| > 0 {
        response := response[..|response| - 1];
      } else {
        response := "Error: Invalid page";
      }
    }
  }

  /** A line of that name is found in the buffer, and what is found there starts all that is unread. */
  lemma NamedInBuffer(buffer: string, unread: string, line: string, name: string)
    requires line == buffer[..Find(buffer, '\n')] && |buffer| <= MSG_MAX_SIZE
    ensures Named(line, name) ==> name <= buffer && At(buffer, |name|) == '|'
    ensures name <= buffer && At(buffer, |name|) == '|' ==> name + "|" <= Window(buffer + unread)
  {
    hide Find, Window;
    BarBehind(buffer, name);
    WindowStarts(buffer, unread);
    PrefixOfPrefix(name + "|", line, buffer);
    PrefixOfPrefix(name + "|", buffer, Window(buffer + unread));
  }

  lemma BarBehind(s: string, name: string)
    ensures name <= s && At(s, |name|) == '|' <==> name + "|" <= s
  {
    var u := name + "|";
    if u <= s { assert s[..|u|] == u && s[..|name|] == u[..|name|] == name && s[|name|] == u[|name|]; }
    if name <= s && At(s, |name|) == '|' { assert s[..|u|] == s[..|name|] + [s[|name|]]; }
  }

  lemma PrefixOfPrefix(u: string, v: string, w: string)
    requires |v| <= |w| && w[..|v|] == v
    ensures u <= v ==> u <= w
  {
    if u <= v { assert w[..|u|] == w[..|v|][..|u|] == v[..|u|]; }
  }

  lemma AheadStep(data: string, name: string)
    requires data != ""
    ensures HasAhead(data, name) <==> name + "|" <= Window(data) || HasAhead(Behind(data), name)
  {
  }

  /** A name without a newline stays inside its line. */
  lemma {:induction false} AheadIsName(data: string, name: string)
    requires IsLine(name)
    ensures HasAhead(data, name) <==> HasName(LinesOf(data), name)
    decreases |data|
  {
    if data != "" {
      hide FirstLine, Behind, Named, Window;
      LinesStep(data);
      AheadIsName(Behind(data), name);
      FirstNamed(data, name);
    }
  }

  lemma FirstNamed(data: string, name: string)
    requires data != "" && IsLine(name)
    ensures Named(FirstLine(data), name) <==> name + "|" <= Window(data)
  {
    var w, u := Window(data), name + "|";
    var n := Find(w, '\n');
    assert FirstLine(data) == w[..n];
    if u <= w {
      assert w[..|u|] == u && forall k :: 0 <= k < |u| ==> w[k] == u[k] != '\n';
      assert w[..n][..|u|] == u;
    }
    if u <= w[..n] { assert w[..|u|] == w[..n][..|u|]; }
  }

  lemma JoinNothing(sep: string)
    ensures Join([], sep) == ""
  {
  }

  lemma RemoveStep(kept: seq<string>, lines: seq<string>, name: string)
    requires lines != []
    ensures kept + Kept(lines, name) == kept + KeptLine(lines[0], name) + Kept(lines[1..], name)
    ensures HasName(lines, name) == (Named(lines[0], name) || HasName(lines[1..], name))
  {
    hide Named, KeptLine;
    Assoc(kept, KeptLine(lines[0], name), Kept(lines[1..], name));
  }

  lemma CountStep(lines: seq<string>)
    ensures WellFormedCount(lines) ==
            if lines == [] then 0 else (if HasBar(lines[0]) then 1 else 0) + WellFormedCount(lines[1..])
  {
  }

  lemma NothingBefore(s: string)
    ensures "" + s == s
  {
  }

  lemma PageStep(response: string, lines: seq<string>, nr: nat, page: int)
    requires lines != [] && nr / ENTRIES_PER_PAGE + 1 <= page + 1
    ensures response + PageText(lines, nr, page) ==
      if !OnPage(nr + 1, page) then response + PageText(lines[1..], nr + 1, page)
      else if HasBar(lines[0]) then response + NameOf(lines[0]) + "," + PageText(lines[1..], nr + 1, page)
      else response + PageText(lines[1..], nr, page)
  {
    hide OnPage, NameOf;
    var more := PageText(lines[1..], nr + 1, page);
    Assoc(response, NameOf(lines[0]) + ",", more);
    Assoc(response, NameOf(lines[0]), ",");
  }

  lemma PageEnds(response: string, lines: seq<string>, nr: nat, page: int)
    requires lines == [] || nr / ENTRIES_PER_PAGE + 1 > page + 1
    ensures response + PageText(lines, nr, page) == response
  {
    NoTail(response);
  }

  lemma RemoveNothing(kept: seq<string>, name: string)
    ensures kept + Kept([], name) == kept && !HasName([], name)
  {
  }

  /** The loop over the old rule file: kept lines go to the new one. */
  method CopyWithout(content: string, name: string) returns (written: string, found: bool)
    requires Free(content, '\0')
    ensures written == Join(Kept(LinesOf(content), name), "\n") && Free(written, '\0')
    ensures found == HasName(LinesOf(content), name)
  {
    hide LinesOf, FirstLine, Behind, Named, KeptLine, Join, Kept, HasName;
    var reader := new LineReader(content);
    var firstTime := true;
    written, found := "", false;
    ghost var kept: seq<string> := [];
    JoinNothing("\n");
    var more := reader.More();
    while more
      invariant reader.Valid() && fresh(reader.Footprint()) && more == (reader.Data() != "")
      invariant written == Join(kept, "\n") && Free(written, '\0') && firstTime == (kept == [])
      invariant kept + Kept(LinesOf(reader.Data()), name) == Kept(LinesOf(content), name)
      invariant found || HasName(LinesOf(reader.Data()), name) <==> HasName(LinesOf(content), name)
      decreases |reader.Data()|
    {
      LinesStep(reader.Data());
      var rule := reader.Line();
      RemoveStep(kept, LinesOf(reader.Data()), name);
      written, firstTime := KeepLine(written, firstTime, rule, name, kept);
      kept := kept + KeptLine(rule, name);
      if Named(rule, name) {
        found := true;
      }
      reader.Next();
      more := reader.More();
    }
    LinesOfNothing();
    RemoveNothing(kept, name);
  }

  /** The loop over the rule file that gathers the names of a page. */
  method CollectPage(content: string, page: int) returns (text: string)
    requires Free(content, '\0')
    ensures text == PageText(LinesOf(content), 0, page)
  {
    hide LinesOf, FirstLine, Behind, PageText;
    var reader := new LineReader(content);
    var entries: nat := 0;
    text := "";
    var more := reader.More();
    NothingBefore(PageText(LinesOf(content), 0, page));
    while more && entries / ENTRIES_PER_PAGE + 1 <= page + 1
      invariant reader.Valid() && fresh(reader.Footprint()) && more == (reader.Data() != "")
      invariant text + PageText(LinesOf(reader.Data()), entries, page) == PageText(LinesOf(content), 0, page)
      decreases |reader.Data()|
    {
      LinesStep(reader.Data());
      PageStep(text, LinesOf(reader.Data()), entries, page);
      entries := entries + 1;
      if (entries / ENTRIES_PER_PAGE + 1 == page && entries % ENTRIES_PER_PAGE != 0) ||
         (entries / ENTRIES_PER_PAGE + 1 == page + 1 && entries % ENTRIES_PER_PAGE == 0) {
        var entry := reader.Line();
        var p := Find(entry, '|');
        if p == |entry| {
          entries := entries - 1;
        } else {
          text := text + entry[..p] + ",";
        }
      }
      reader.Next();
      more := reader.More();
    }
    LinesOfNothing();
    PageEnds(text, LinesOf(reader.Data()), entries, page);
  }

  /** Writing a line to the new file if it is kept, with a newline in front of it unless it is the first. */
  method KeepLine(written: string, firstTime: bool, rule: string, name: string, ghost kept: seq<string>)
    returns (file: string, first: bool)
    requires written == Join(kept, "\n") && firstTime == (kept == [])
    ensures file == Join(kept + KeptLine(rule, name), "\n") && first == (kept + KeptLine(rule, name) == [])
    ensures Free(written, '\0') && Free(rule, '\0') ==> Free(file, '\0')
  {
    hide Named, HasBar;
    file, first := written, firstTime;
    if Named(rule, name) || !HasBar(rule) {
      NoTail(kept);
      return;
    }
    if !firstTime {
      file := file + "\n";
      JoinAppend(kept, rule, "\n");
    } else {
      assert kept + [rule] == [rule];
    }
    file, first := file + rule, false;
  }
}
