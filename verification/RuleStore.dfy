/** The rule file as an ordered map: what the textual operations of the agent add up to over any
    sequence of commands. */
module RuleStore {
  import opened CStrings
  import opened CBuffers
  import opened RuleFiles
  import opened InfoSources

  datatype Rule = Rule(name: string, template: string)

  function Text(r: Rule): string {
    r.name + "|" + r.template
  }

  predicate GoodRule(r: Rule) {
    IsLine(r.name) && Free(r.name, '|') && IsLine(r.template) && |Text(r)| < MSG_MAX_SIZE
  }

  /** No two rules share a name. */
  predicate Good(rs: seq<Rule>) {
    (forall r <- rs :: GoodRule(r)) && forall i, j :: 0 <= i < j < |rs| ==> rs[i].name != rs[j].name
  }

  function Texts(rs: seq<Rule>): (lines: seq<string>)
    ensures |lines| == |rs| && forall k :: 0 <= k < |rs| ==> lines[k] == Text(rs[k])
  {
    if rs == [] then [] else [Text(rs[0])] + Texts(rs[1..])
  }

  /** The file that stands for a list of rules. */
  function Content(rs: seq<Rule>): string {
    Join(Texts(rs), "\n")
  }

  // ----- the map

  predicate Has(rs: seq<Rule>, name: string) {
    exists r <- rs :: r.name == name
  }

  function Insert(rs: seq<Rule>, r: Rule): seq<Rule> {
    if Has(rs, r.name) then rs else rs + [r]
  }

  function Lookup(rs: seq<Rule>, name: string): Option<string> {
    if rs == [] then None else if rs[0].name == name then Some(rs[0].template) else Lookup(rs[1..], name)
  }

  function Delete(rs: seq<Rule>, name: string): seq<Rule> {
    if rs == [] then []
    else (if rs[0].name == name then [] else [rs[0]]) + Delete(rs[1..], name)
  }

  /** What the agent deletes: it compares the argument and a bar with the start of the line, so an
      argument with a bar of its own reaches into the templates. */
  function DeleteByText(rs: seq<Rule>, arg: string): seq<Rule> {
    if rs == [] then []
    else (if Named(Text(rs[0]), arg) then [] else [rs[0]]) + DeleteByText(rs[1..], arg)
  }

  // ----- lines and rules

  /** Cutting a line at its first bar. */
  function RuleOf(line: string): Rule
    requires HasBar(line)
  {
    Rule(NameOf(line), TemplateOf(line))
  }

  lemma RuleOfText(r: Rule)
    requires Free(r.name, '|')
    ensures HasBar(Text(r)) && NameOf(Text(r)) == r.name && TemplateOf(Text(r)) == r.template && RuleOf(Text(r)) == r
  {
    var t := Text(r);
    assert t[..|r.name|] == r.name && t[|r.name|] == '|';
    FindIs(t, '|', |r.name|);
  }

  lemma TextOfRule(line: string)
    requires HasBar(line) && FitsLine(line)
    ensures Text(RuleOf(line)) == line && GoodRule(RuleOf(line))
  {
  }

  lemma NamedText(r: Rule, name: string)
    requires Free(r.name, '|') && Free(name, '|')
    ensures Named(Text(r), name) <==> r.name == name
  {
    var t := Text(r);
    assert t[|r.name|] == '|';
    if Named(t, name) {
      var u := name + "|";
      assert t[..|u|] == u;
      assert t[|name|] == u[|name|] == '|';
      assert forall k :: 0 <= k < |name| ==> t[k] == t[..|u|][k] == name[k];
      assert |name| == |r.name|;
      assert t[..|name|] == name && t[..|r.name|] == r.name;
    }
    if r.name == name {
      assert t[..|name| + 1] == name + "|";
    }
  }

  lemma {:induction false} HasRefines(rs: seq<Rule>, name: string)
    requires Good(rs) && Free(name, '|')
    ensures HasName(Texts(rs), name) <==> Has(rs, name)
  {
    hide Named, Text, GoodRule;
    if rs != [] {
      GoodTail(rs);
      HasRefines(rs[1..], name);
      assert GoodRule(rs[0]);
      NamesFree(rs[0]);
      NamedText(rs[0], name);
      assert Texts(rs)[1..] == Texts(rs[1..]);
      assert forall r :: r in rs <==> r == rs[0] || r in rs[1..];
    }
  }

  lemma NamesFree(r: Rule)
    requires GoodRule(r)
    ensures Free(r.name, '|') && FitsLine(Text(r)) && Text(r) != "" && HasBar(Text(r))
  {
    RuleOfText(r);
  }

  lemma GoodTail(rs: seq<Rule>)
    requires Good(rs) && rs != []
    ensures Good(rs[1..])
  {
  }

  /** The file is read back as the lines it was written from. */
  lemma ReadsBack(rs: seq<Rule>)
    requires Good(rs)
    ensures LinesOf(Content(rs)) == Texts(rs)
  {
    hide FitsLine, GoodRule, Text, LinesOf, Join;
    forall k | 0 <= k < |rs| ensures FitsLine(Texts(rs)[k]) && Texts(rs)[k] != "" {
      assert GoodRule(rs[k]);
      NamesFree(rs[k]);
    }
    assert forall s <- Texts(rs) :: FitsLine(s);
    LinesOfJoin(Texts(rs));
  }

  // ----- the arguments of commands

  predicate IsNewline(c: char) { c == '\n' }

  /** A text behind the newlines at its front. */
  function Stripped(s: string): string {
    s[Span(s, IsNewline)..]
  }

  /** What the cutting of a command into lines leaves as an argument: `strtok` puts a NUL behind the path and
      behind the next line, but skips newlines in front of that line and leaves them where they are. */
  function ArgumentOf(behind: string): string {
    var n := Span(behind, IsNewline);
    behind[..n + Find(behind[n..], '\n')]
  }

  predicate Argument(s: string) {
    IsLine(Stripped(s)) && |s| < MSG_MAX_SIZE
  }

  predicate Leading(s: string) {
    s != "" && s[0] == '\n'
  }

  /** An argument is the newlines at the front of the text, and the line behind them. */
  lemma {:induction false} ArgumentParts(s: string)
    ensures var n, line := Span(s, IsNewline), Stripped(s);
            var first := line[..Find(line, '\n')];
            ArgumentOf(s) == s[..n] + first && Stripped(ArgumentOf(s)) == first
  {
    hide Find;
    var n := Span(s, IsNewline);
    var line := s[n..];
    var k := Find(line, '\n');
    var first := line[..k];
    NoneBefore(line, '\n');
    assert s[..n + k] == s[..n] + first;
    assert k > 0 ==> first[0] == line[0];
    SpanIs(s[..n] + first, IsNewline, n);
    assert (s[..n] + first)[n..] == first;
  }

  /** Arguments are exactly the texts that cutting a command gives. */
  lemma {:induction false} ArgumentsArise(s: string)
    requires |s| < MSG_MAX_SIZE && Free(s, '\0')
    ensures Argument(ArgumentOf(s))
    ensures Argument(s) <==> ArgumentOf(s) == s
  {
    hide Find, Span, ArgumentOf;
    ArgumentParts(s);
    var n, line := Span(s, IsNewline), Stripped(s);
    var k := Find(line, '\n');
    assert s == s[..n] + line;
    assert |ArgumentOf(s)| == n + k;
    if k == |line| {
      assert line[..k] == line;
    } else {
      assert line[k] == '\n';
    }
  }

  lemma PlainArgument(s: string)
    requires Argument(s)
    ensures Leading(s) ==> s == "\n" + s[1..] && Argument(s[1..])
    ensures !Leading(s) ==> FitsLine(s)
    ensures Free(s, '\0')
    decreases |s|
  {
    if Leading(s) {
      var n := Span(s, IsNewline);
      assert s[1..][n - 1..] == s[n..];
      SpanIs(s[1..], IsNewline, n - 1);
      PlainArgument(s[1..]);
      assert forall k :: 1 <= k < |s| ==> s[k] == s[1..][k - 1];
    } else {
      assert Span(s, IsNewline) == 0 && s[0..] == s;
    }
  }

  // ----- the operations refine the map

  lemma LineAdded(rs: seq<Rule>, arg: string)
    requires Good(rs) && FitsLine(arg) && HasBar(arg)
    ensures Added(Content(rs), arg) == Content(Insert(rs, RuleOf(arg))) && Good(Insert(rs, RuleOf(arg)))
    ensures Addable(Content(rs), arg) <==> !Has(rs, NameOf(arg))
  {
    hide Text, GoodRule, HasName, LinesOf, FitsLine;
    var r := RuleOf(arg);
    TextOfRule(arg);
    NamesFree(r);
    ReadsBack(rs);
    HasRefines(rs, r.name);
    if !Has(rs, r.name) {
      assert forall q <- rs :: q.name != r.name;
      TextsAppend(rs, r);
      AppendsText(rs, arg);
    }
  }

  lemma TextsAppend(rs: seq<Rule>, r: Rule)
    ensures Texts(rs + [r]) == Texts(rs) + [Text(r)]
  {
  }

  lemma AppendsText(rs: seq<Rule>, line: string)
    requires Good(rs)
    ensures Appended(Content(rs), line) == Join(Texts(rs) + [line], "\n")
  {
    if rs == [] {
      assert Texts(rs) + [line] == [line];
    } else {
      JoinAppend(Texts(rs), line, "\n");
      assert GoodRule(rs[0]);
      NamesFree(rs[0]);
      assert Content(rs) != "";
    }
  }

  lemma {:induction false} KeptRefines(rs: seq<Rule>, arg: string)
    requires Good(rs)
    ensures Kept(Texts(rs), arg) == Texts(DeleteByText(rs, arg))
  {
    hide Text, GoodRule, Named, HasBar;
    if rs != [] {
      GoodTail(rs);
      KeptRefines(rs[1..], arg);
      assert GoodRule(rs[0]);
      NamesFree(rs[0]);
      assert Texts(rs)[1..] == Texts(rs[1..]);
      var more := DeleteByText(rs[1..], arg);
      assert ([rs[0]] + more)[1..] == more;
      assert [] + Kept(Texts(rs[1..]), arg) == Kept(Texts(rs[1..]), arg);
    }
  }

  lemma {:induction false} DeleteKeepsGood(rs: seq<Rule>, arg: string)
    requires Good(rs)
    ensures Good(DeleteByText(rs, arg)) && forall r <- DeleteByText(rs, arg) :: r in rs
  {
    hide Named, Good, Text;
    if rs != [] {
      GoodTail(rs);
      DeleteKeepsGood(rs[1..], arg);
      GoodCons(rs, DeleteByText(rs[1..], arg));
      assert [] + DeleteByText(rs[1..], arg) == DeleteByText(rs[1..], arg);
    }
  }

  lemma GoodCons(rs: seq<Rule>, more: seq<Rule>)
    requires Good(rs) && rs != [] && Good(more) && forall r <- more :: r in rs[1..]
    ensures Good([rs[0]] + more) && (forall r <- [rs[0]] + more :: r in rs) && forall r <- more :: r in rs
  {
    hide GoodRule;
    forall k | 0 <= k < |more| ensures more[k].name != rs[0].name {
      assert more[k] in rs[1..];
      var j :| 0 <= j < |rs[1..]| && rs[1..][j] == more[k];
      assert rs[j + 1] == more[k];
    }
    assert forall r <- rs[1..] :: r in rs;
  }

  lemma RemoveRefines(rs: seq<Rule>, arg: string)
    requires Good(rs) && arg != ""
    ensures Removed(Content(rs), arg) == Content(DeleteByText(rs, arg)) && Good(DeleteByText(rs, arg))
  {
    hide Good, Texts, DeleteByText;
    ReadsBack(rs);
    KeptRefines(rs, arg);
    DeleteKeepsGood(rs, arg);
  }

  /** For an argument without a bar, which is what a rule name is, exactly the named rule goes. */
  lemma {:induction false} DeleteByName(rs: seq<Rule>, name: string)
    requires Good(rs) && Free(name, '|')
    ensures DeleteByText(rs, name) == Delete(rs, name)
  {
    hide Text, GoodRule, Named;
    if rs != [] {
      GoodTail(rs);
      assert GoodRule(rs[0]);
      NamesFree(rs[0]);
      NamedText(rs[0], name);
      DeleteByName(rs[1..], name);
    }
  }

  lemma OvershootingRemoval(arg: string)
    requires FitsLine(arg + "|") && !Free(arg, '|')
    ensures HasBar(arg)
    ensures var rs := [Rule(NameOf(arg), TemplateOf(arg) + "|")];
            Good(rs) && DeleteByText(rs, arg) == [] && Delete(rs, arg) == rs
  {
    NoneBefore(arg, '|');
    var t := arg + "|";
    var r := Rule(NameOf(arg), TemplateOf(arg) + "|");
    assert arg == NameOf(arg) + "|" + TemplateOf(arg);
    Assoc(NameOf(arg) + "|", TemplateOf(arg), "|");
    assert Text(r) == t;
    assert forall k :: 0 <= k < |r.template| ==> r.template[k] == t[|r.name| + 1 + k];
    assert forall k :: 0 <= k < |r.name| ==> r.name[k] == t[k];
    assert [r][1..] == [];
  }

  lemma {:induction false} ShowRefines(rs: seq<Rule>, name: string)
    requires Good(rs)
    ensures Shown(Texts(rs), name) == Reply(match Lookup(rs, name) case None => "" case Some(template) => template)
  {
    hide Text, GoodRule, HasBar, NameOf, TemplateOf;
    if rs != [] {
      GoodTail(rs);
      ShowRefines(rs[1..], name);
      assert GoodRule(rs[0]);
      NamesFree(rs[0]);
      RuleOfText(rs[0]);
      assert Texts(rs)[1..] == Texts(rs[1..]);
    }
  }

  /** A rule is shown exactly when its template is not empty; otherwise the answer is the one for a
      rule that does not exist. */
  lemma ShowTells(rs: seq<Rule>, name: string)
    requires Good(rs) && Lookup(rs, name) != Some(RULE_NOT_FOUND)
    ensures ShowReply(LinesOf(Content(rs)), name) == Reply(RULE_NOT_FOUND)
            <==> Lookup(rs, name) == None || Lookup(rs, name) == Some("")
    ensures Lookup(rs, name).Some? && Lookup(rs, name).value != "" ==>
            ShowReply(LinesOf(Content(rs)), name) == Reply(Lookup(rs, name).value)
  {
    hide Content, LinesOf, Shown;
    ReadsBack(rs);
    ShowRefines(rs, name);
  }

  // ----- arguments with a newline in front

  /** Some list of well-formed rules with distinct names stands for the file. */
  ghost predicate IsStore(content: string) {
    exists rs :: Good(rs) && content == Content(rs)
  }

  lemma StoreHasNoBlankLine(content: string)
    requires IsStore(content)
    ensures "" !in LinesOf(content)
  {
    hide LinesOf, Content, Good;
    var rs :| Good(rs) && content == Content(rs);
    ReadsBack(rs);
    TextsNotEmpty(rs);
  }

  lemma TextsNotEmpty(rs: seq<Rule>)
    requires Good(rs)
    ensures forall line <- Texts(rs) :: FitsLine(line) && line != "" && HasBar(line)
  {
    hide Text, HasBar, FitsLine, GoodRule;
    forall k | 0 <= k < |rs| ensures FitsLine(Texts(rs)[k]) && Texts(rs)[k] != "" && HasBar(Texts(rs)[k]) {
      assert GoodRule(rs[k]);
      NamesFree(rs[k]);
    }
  }

  /** Lines and then a text that starts with a newline. */
  lemma BlankLine(rs: seq<Rule>, behind: string)
    requires Good(rs)
    ensures LinesOf(Appended(Content(rs), "\n" + behind)) == Texts(rs) + [""] + LinesOf(behind)
  {
    hide FirstLine, Behind, LinesOf, Join, FitsLine, HasBar;
    TextsNotEmpty(rs);
    LinesStep("\n" + behind);
    assert FitsLine("") by { EmptyFits(); }
    LineThenRest("", behind);
    assert "" + "\n" + behind == "\n" + behind;
    ContentEmpty(rs);
    if rs != [] {
      LinesInFront(Texts(rs), "\n" + behind);
      Assoc(Texts(rs), [""], LinesOf(behind));
    }
  }

  lemma EmptyFits()
    ensures FitsLine("")
  {
  }

  lemma ContentEmpty(rs: seq<Rule>)
    requires Good(rs)
    ensures Content(rs) == "" <==> rs == []
  {
    if rs != [] {
      assert GoodRule(rs[0]);
      NamesFree(rs[0]);
    }
  }

  lemma FirstOfPrefix(u: string, s: string)
    requires u != ""
    ensures u <= s ==> s != "" && s[0] == u[0]
  {
  }

  lemma {:induction false} NoSuchName(lines: seq<string>, name: string)
    requires FitLines(lines) && Leading(name)
    ensures !HasName(lines, name)
  {
    if lines != [] {
      assert FitsLine(lines[0]);
      FirstOfPrefix(name + "|", lines[0]);
      NoSuchName(lines[1..], name);
    }
  }

  lemma {:induction false} NothingAhead(rs: seq<Rule>, name: string)
    requires Good(rs) && Leading(name)
    ensures !HasAhead(Content(rs), name)
    decreases |rs|
  {
    hide Text, GoodRule, Window, Behind, Find;
    if rs != [] {
      GoodTail(rs);
      NothingAhead(rs[1..], name);
      FrontRule(rs);
      AheadStep(Content(rs), name);
      FirstOfPrefix(name + "|", Window(Content(rs)));
    }
  }

  lemma FrontRule(rs: seq<Rule>)
    requires Good(rs) && rs != []
    ensures Content(rs) != "" && Behind(Content(rs)) == Content(rs[1..])
    ensures Window(Content(rs)) != "" && Window(Content(rs))[0] != '\n'
  {
    hide GoodRule, Text, FirstLine, Find;
    assert GoodRule(rs[0]);
    NamesFree(rs[0]);
    var t := Text(rs[0]);
    assert Texts(rs)[1..] == Texts(rs[1..]);
    assert t[0] != '\n';
    if |rs| == 1 {
      LastLine(t);
    } else {
      LineThenRest(t, Content(rs[1..]));
    }
  }

  lemma NameLeads(arg: string)
    requires HasBar(arg) && Leading(arg)
    ensures Leading(NameOf(arg)) && NameOf(arg) + "|" <= arg
  {
    var p := Find(arg, '|');
    assert arg[..p + 1] == NameOf(arg) + "|";
  }

  /** Such an addition always takes place, and leaves a blank line in the file. */
  lemma LeadingAdded(rs: seq<Rule>, arg: string, after: string)
    requires Good(rs) && Leading(arg) && HasBar(arg) && MayAdd(Content(rs), arg, after)
    ensures Addable(Content(rs), arg) && after == Appended(Content(rs), arg)
    ensures LinesOf(after) == Texts(rs) + [""] + LinesOf(arg[1..])
  {
    hide Text, Content, LinesOf, HasName, HasAhead, NameOf, HasBar;
    NameLeads(arg);
    NothingAhead(rs, NameOf(arg));
    ReadsBack(rs);
    TextsNotEmpty(rs);
    NoSuchName(Texts(rs), NameOf(arg));
    assert arg == "\n" + arg[1..];
    BlankLine(rs, arg[1..]);
  }

  /** An addition with a bar keeps the file the text of a rule list exactly when its argument has no newline
      in front; the list is then the one with the rule inserted. */
  lemma AddRefines(rs: seq<Rule>, arg: string, after: string)
    requires Good(rs) && Argument(arg) && HasBar(arg) && MayAdd(Content(rs), arg, after)
    ensures IsStore(after) <==> !Leading(arg)
    ensures !Leading(arg) ==> after == Content(Insert(rs, RuleOf(arg))) && Good(Insert(rs, RuleOf(arg)))
  {
    hide Good, Content, LinesOf, HasName, HasAhead, NameOf, HasBar, Insert, Texts;
    PlainArgument(arg);
    if Leading(arg) {
      LeadingAdded(rs, arg, after);
      if IsStore(after) { StoreHasNoBlankLine(after); }
    } else {
      LineAdded(rs, arg);
      PlainName(arg);
      AheadIsName(Content(rs), NameOf(arg));
    }
  }

  lemma PlainName(arg: string)
    requires IsLine(arg)
    ensures IsLine(NameOf(arg))
  {
  }

  /** What the blank line does: the name may stand in the file twice, and asking for any name that is not in
      front of the blank line makes the agent write through a null pointer. */
  lemma LeadingNewlineBreaks(rs: seq<Rule>, r: Rule, after: string, name: string)
    requires Good(rs) && GoodRule(r) && MayAdd(Content(rs), "\n" + Text(r), after)
    ensures LinesOf(after) == Texts(rs) + [""] + [Text(r)]
    ensures ShowReply(LinesOf(after), name) == Crash <==> !Has(rs, name)
  {
    hide Text, Good, Content, LinesOf, HasBar, GoodRule;
    NamesFree(r);
    var arg := "\n" + Text(r);
    assert arg[1..] == Text(r);
    BarStays(Text(r));
    LeadingAdded(rs, arg, after);
    LastLine(Text(r));
    LinesStep(Text(r));
    LinesOfNothing();
    Assoc(Texts(rs), [""], [Text(r)]);
    ShownThenBlank(rs, [Text(r)], name);
  }

  /** A file with the rule `A|x`, and the addition of `A|y` with a newline in front: two rules of one name. */
  lemma {:induction false} DuplicateName(after: string)
    requires MayAdd("A|x", "\nA|y", after)
    ensures after == "A|x\n\nA|y" && LinesOf(after) == ["A|x", "", "A|y"] && ShowReply(LinesOf(after), "B") == Crash
  {
    hide LinesOf, MayAdd, ShowReply;
    var x, y := Rule("A", "x"), Rule("A", "y");
    assert Text(x) == "A|x" && Text(y) == "A|y" && "\n" + "A|y" == "\nA|y";
    assert Texts([x]) == ["A|x"] && Content([x]) == "A|x";
    LeadingNewlineBreaks([x], y, after, "B");
    BarAt("\nA|y", 2);
    LeadingAdded([x], "\nA|y", after);
  }

  lemma BarAt(s: string, k: nat)
    requires k < |s| && s[k] == '|'
    ensures HasBar(s)
  {
    NoneBefore(s, '|');
  }

  lemma BarStays(s: string)
    requires HasBar(s)
    ensures HasBar("\n" + s)
  {
    assert ("\n" + s)[1..] == s;
  }

  lemma NoBarInNothing()
    ensures !HasBar("")
  {
  }

  lemma {:induction false} ShownThenBlank(rs: seq<Rule>, more: seq<string>, name: string)
    requires Good(rs)
    ensures Shown(Texts(rs) + ([""] + more), name) == Crash <==> !Has(rs, name)
    decreases |rs|
  {
    hide Text, GoodRule, HasBar, NameOf, TemplateOf;
    if rs == [] {
      assert Texts(rs) + ([""] + more) == [""] + more;
      NoBarInNothing();
    } else {
      GoodTail(rs);
      ShownThenBlank(rs[1..], more, name);
      assert GoodRule(rs[0]);
      NamesFree(rs[0]);
      RuleOfText(rs[0]);
      assert (Texts(rs) + ([""] + more))[1..] == Texts(rs[1..]) + ([""] + more);
      assert (Texts(rs) + ([""] + more))[0] == Text(rs[0]);
      assert forall q :: q in rs <==> q == rs[0] || q in rs[1..];
    }
  }

  // ----- what a removal takes

  /** An argument that no line of the file can continue with a bar takes nothing. */
  lemma {:induction false} NothingTaken(rs: seq<Rule>, arg: string)
    requires Good(rs) && (Leading(arg) || (|arg| + 1 >= MSG_MAX_SIZE && !Free(arg, '|')))
    ensures DeleteByText(rs, arg) == rs && Delete(rs, arg) == rs
  {
    hide Text;
    if rs != [] {
      GoodTail(rs);
      NothingTaken(rs[1..], arg);
      assert GoodRule(rs[0]);
      NamesFree(rs[0]);
      FirstOfPrefix(arg + "|", Text(rs[0]));
      assert rs == [rs[0]] + rs[1..];
    }
  }

  lemma ContentIsOne(rs: seq<Rule>, qs: seq<Rule>)
    requires Good(rs) && Good(qs) && Content(rs) == Content(qs)
    ensures |rs| == |qs|
  {
    hide Good, Content;
    ReadsBack(rs);
    ReadsBack(qs);
  }

  /** When an argument removes exactly the rule of that name. */
  predicate RemovesByName(arg: string) {
    arg != "" && (Free(arg, '|') || Leading(arg) || |arg| + 1 >= MSG_MAX_SIZE)
  }

  /** An argument removes exactly the rule of that name from every file if and only if it is not empty and has no
      bar of its own, unless it starts with a newline or fills the buffer: other arguments with a bar also
      reach rules whose templates continue them, and an empty one removes nothing, not even a nameless rule. */
  lemma RemoveIsExact(arg: string)
    requires Argument(arg)
    ensures RemovesByName(arg) <==>
              forall rs :: Good(rs) ==> Removed(Content(rs), arg) == Content(Delete(rs, arg))
  {
    hide Good, Content, Removed, DeleteByText, Delete, Argument;
    if RemovesByName(arg) {
      forall rs | Good(rs) ensures Removed(Content(rs), arg) == Content(Delete(rs, arg)) {
        RemoveRefines(rs, arg);
        if Free(arg, '|') { DeleteByName(rs, arg); } else { NothingTaken(rs, arg); }
      }
    } else {
      var rs := WrongRemoval(arg);
    }
  }

  lemma WrongRemoval(arg: string) returns (rs: seq<Rule>)
    requires Argument(arg) && !RemovesByName(arg)
    ensures Good(rs) && Removed(Content(rs), arg) != Content(Delete(rs, arg))
  {
    hide Content, Removed, DeleteByText, Delete;
    PlainArgument(arg);
    if arg == "" {
      rs := [Rule("", "")];
      NamelessDeleted();
      NothingRemoved(Content(rs));
      if Content(rs) == Content([]) { ContentIsOne(rs, []); }
    } else {
      OvershootingRemoval(arg);
      rs := [Rule(NameOf(arg), TemplateOf(arg) + "|")];
      RemoveRefines(rs, arg);
      if Content(rs) == Content([]) { ContentIsOne(rs, []); }
    }
  }

  lemma NamelessDeleted()
    ensures Delete([Rule("", "")], "") == [] && Good([Rule("", "")])
  {
    assert [Rule("", "")][1..] == [];
    assert Text(Rule("", "")) == "|";
  }

  // ----- whole runs

  datatype Command = Add(arg: string) | Remove(arg: string)

  /** A command as the agent receives it. */
  predicate Received(c: Command) {
    Argument(c.arg)
  }

  /** What a command may leave of a file. */
  predicate MayExecute(content: string, c: Command, after: string) {
    match c
    case Add(arg) => MayAdd(content, arg, after)
    case Remove(arg) => after == Removed(content, arg)
  }

  /** Everything but an addition with a bar and a newline in front. */
  predicate Keeps(c: Command) {
    c.Add? && HasBar(c.arg) ==> !Leading(c.arg)
  }

  function ExecuteMap(rs: seq<Rule>, c: Command): seq<Rule> {
    match c
    case Add(arg) => if HasBar(arg) then Insert(rs, RuleOf(arg)) else rs
    case Remove(arg) => if arg == "" then rs else DeleteByText(rs, arg)
  }

  /** The file in front of each command, and behind the last one. */
  predicate MayRun(contents: seq<string>, cs: seq<Command>) {
    |contents| == |cs| + 1 && forall k :: 0 <= k < |cs| ==> MayExecute(contents[k], cs[k], contents[k + 1])
  }

  function RunMap(rs: seq<Rule>, cs: seq<Command>): seq<Rule>
    decreases |cs|
  {
    if cs == [] then rs else RunMap(ExecuteMap(rs, cs[0]), cs[1..])
  }

  lemma StepRefines(rs: seq<Rule>, c: Command, after: string)
    requires Good(rs) && Received(c) && MayExecute(Content(rs), c, after)
    ensures IsStore(after) <==> Keeps(c)
    ensures Keeps(c) ==> after == Content(ExecuteMap(rs, c)) && Good(ExecuteMap(rs, c))
  {
    hide Good, Content, Removed, DeleteByText, Insert, HasBar, HasName, HasAhead, LinesOf, IsStore;
    match c
    case Add(arg) =>
      if HasBar(arg) { AddRefines(rs, arg, after); } else { IsStoreOf(rs); }
    case Remove(arg) =>
      if arg != "" {
        RemoveRefines(rs, arg);
        IsStoreOf(DeleteByText(rs, arg));
      } else {
        NothingRemoved(Content(rs));
        IsStoreOf(rs);
      }
  }

  lemma IsStoreOf(rs: seq<Rule>)
    requires Good(rs)
    ensures IsStore(Content(rs))
  {
  }

  lemma NothingRemoved(content: string)
    ensures Removed(content, "") == content
  {
  }

  /** Over any sequence of commands the file is, behind each of them, the newline-joined text of well-formed
      rules with distinct names, exactly when no addition with a bar has a newline in front.  The rules are
      then what the map operations give. */
  lemma {:induction false} RunRefines(rs: seq<Rule>, cs: seq<Command>, contents: seq<string>)
    requires Good(rs) && (forall c <- cs :: Received(c)) && MayRun(contents, cs) && contents[0] == Content(rs)
    ensures (forall k :: 0 <= k < |contents| ==> IsStore(contents[k])) <==> forall c <- cs :: Keeps(c)
    ensures (forall c <- cs :: Keeps(c)) ==> contents[|cs|] == Content(RunMap(rs, cs)) && Good(RunMap(rs, cs))
    decreases |cs|
  {
    hide Good, Content, MayExecute, ExecuteMap, Received, Keeps, IsStore;
    IsStoreOf(rs);
    if cs != [] {
      assert cs[0] in cs && forall c <- cs[1..] :: c in cs;
      assert MayExecute(contents[0], cs[0], contents[1]);
      StepRefines(rs, cs[0], contents[1]);
      if Keeps(cs[0]) {
        RunTail(contents, cs);
        RunRefines(ExecuteMap(rs, cs[0]), cs[1..], contents[1..]);
        assert forall k :: 1 <= k < |contents| ==> contents[k] == contents[1..][k - 1];
        assert forall k :: 0 <= k < |contents| - 1 ==> contents[1..][k] == contents[k + 1];
        assert forall c <- cs :: c == cs[0] || c in cs[1..];
      }
    }
  }

  lemma RunTail(contents: seq<string>, cs: seq<Command>)
    requires MayRun(contents, cs) && cs != []
    ensures MayRun(contents[1..], cs[1..])
  {
    hide MayExecute;
    forall k | 0 <= k < |cs| - 1 ensures MayExecute(contents[1..][k], cs[1..][k], contents[1..][k + 1]) {
      assert MayExecute(contents[k + 1], cs[k + 1], contents[k + 2]);
    }
  }

  /** The same from a new, empty file. */
  lemma RunFromEmpty(cs: seq<Command>, contents: seq<string>)
    requires (forall c <- cs :: Received(c)) && MayRun(contents, cs) && contents[0] == ""
    ensures (forall k :: 0 <= k < |contents| ==> IsStore(contents[k])) <==> forall c <- cs :: Keeps(c)
    ensures (forall c <- cs :: Keeps(c)) ==> contents[|cs|] == Content(RunMap([], cs)) && Good(RunMap([], cs))
  {
    RunRefines([], cs, contents);
  }

  // ----- deliveries that come twice

  /** A name that runs over line ends is found behind any lines. */
  lemma {:induction false} AheadBehind(lines: seq<string>, rest: string, name: string)
    requires FitLines(lines) && lines != [] && name + "|" <= Window(rest)
    ensures HasAhead(Join(lines, "\n") + "\n" + rest, name)
    decreases |lines|
  {
    hide FirstLine, Behind, FitsLine, Window;
    assert FitsLine(lines[0]);
    var data := Join(lines, "\n") + "\n" + rest;
    AheadStep(data, name);
    if |lines| == 1 {
      LineThenRest(lines[0], rest);
      RestNotEmpty(rest, name);
      AheadStep(rest, name);
    } else {
      var more := Join(lines[1..], "\n");
      Assoc(lines[0] + "\n", more, "\n");
      Assoc(lines[0] + "\n", more + "\n", rest);
      LineThenRest(lines[0], more + "\n" + rest);
      AheadBehind(lines[1..], rest, name);
    }
  }

  lemma RestNotEmpty(rest: string, name: string)
    requires name + "|" <= Window(rest)
    ensures rest != ""
  {
  }

  /** Such a name is found in the file it was added to if enough is read ahead, and not found if not. */
  lemma LeadingAgain(rs: seq<Rule>, arg: string)
    requires Good(rs) && Argument(arg) && Leading(arg) && HasBar(arg)
    ensures var once := Appended(Content(rs), arg);
            MayAdd(Content(rs), arg, once) && MayAdd(once, arg, Appended(once, arg)) && MayAdd(once, arg, once)
            && Appended(once, arg) != once
  {
    hide Text, Content, LinesOf, HasName, HasAhead, NameOf, HasBar, Good, Window;
    var name, once := NameOf(arg), Appended(Content(rs), arg);
    NameLeads(arg);
    PlainArgument(arg);
    ArgumentLines(arg);
    ReadsBack(rs);
    TextsNotEmpty(rs);
    NoSuchName(Texts(rs), name);
    LeadingAdded(rs, arg, once);
    var lines := Texts(rs) + [""] + LinesOf(arg[1..]);
    assert FitLines(lines) by { EmptyFits(); }
    NoSuchName(lines, name);
    WindowAll(arg);
    AheadAgain(rs, arg);
  }

  lemma WindowAll(s: string)
    ensures |s| < MSG_MAX_SIZE ==> Window(s) == s
  {
  }

  lemma AheadAgain(rs: seq<Rule>, arg: string)
    requires Good(rs) && arg != "" && Window(arg) == arg && NameOf(arg) + "|" <= arg
    ensures HasAhead(Appended(Content(rs), arg), NameOf(arg))
  {
    hide NameOf, Good, Texts, Join, Window;
    ContentEmpty(rs);
    TextsNotEmpty(rs);
    if rs == [] { AheadStep(arg, NameOf(arg)); } else { AheadBehind(Texts(rs), arg, NameOf(arg)); }
  }

  /** The lines of an argument are short enough for the reader. */
  lemma {:induction false} ArgumentLines(arg: string)
    requires Argument(arg)
    ensures FitLines(LinesOf(arg)) && (Leading(arg) ==> FitLines(LinesOf(arg[1..])))
    decreases |arg|
  {
    hide FirstLine, Behind, FitsLine, LinesOf, Argument;
    PlainArgument(arg);
    LinesOfNothing();
    if Leading(arg) {
      ArgumentLines(arg[1..]);
      EmptyFits();
      LineThenRest("", arg[1..]);
      assert "" + "\n" + arg[1..] == arg;
      LinesStep(arg);
    } else if arg != "" {
      LastLine(arg);
      LinesStep(arg);
    }
  }

  /** A second delivery of the same command, right behind the first, changes nothing, whatever the reads
      bring, exactly when it is not an addition with a newline in front. */
  lemma DuplicateIsHarmless(rs: seq<Rule>, c: Command)
    requires Good(rs) && Received(c)
    ensures Keeps(c) <==>
              forall once, twice :: MayExecute(Content(rs), c, once) && MayExecute(once, c, twice) ==> twice == once
  {
    hide Good, Content, MayExecute, ExecuteMap, Received, IsStore, Keeps;
    if Keeps(c) {
      forall once, twice | MayExecute(Content(rs), c, once) && MayExecute(once, c, twice) ensures twice == once {
        StepRefines(rs, c, once);
        StepRefines(ExecuteMap(rs, c), c, twice);
        TwiceIsOnce(rs, c);
      }
    } else {
      AddedTwice(rs, c);
    }
  }

  lemma AddedTwice(rs: seq<Rule>, c: Command)
    requires Good(rs) && Received(c) && !Keeps(c)
    ensures exists once, twice :: MayExecute(Content(rs), c, once) && MayExecute(once, c, twice) && twice != once
  {
    hide Good, Content, MayAdd;
    var once := Appended(Content(rs), c.arg);
    LeadingAgain(rs, c.arg);
    assert MayExecute(Content(rs), c, once) && MayExecute(once, c, Appended(once, c.arg));
  }

  lemma TwiceIsOnce(rs: seq<Rule>, c: Command)
    ensures ExecuteMap(ExecuteMap(rs, c), c) == ExecuteMap(rs, c)
  {
    hide Text;
    match c
    case Add(arg) =>
      if HasBar(arg) && !Has(rs, NameOf(arg)) {
        var r := RuleOf(arg);
        assert (rs + [r])[|rs|] == r;
        assert Has(rs + [r], r.name);
      }
    case Remove(arg) =>
      if arg != "" { DeleteTwice(rs, arg); }
  }

  lemma {:induction false} DeleteTwice(rs: seq<Rule>, arg: string)
    ensures DeleteByText(DeleteByText(rs, arg), arg) == DeleteByText(rs, arg)
  {
    hide Text, Named;
    if rs != [] {
      DeleteTwice(rs[1..], arg);
      var more := DeleteByText(rs[1..], arg);
      assert ([rs[0]] + more)[1..] == more;
      assert [] + more == more;
    }
  }

  lemma {:induction false} DeleteLast(rs: seq<Rule>, r: Rule)
    requires !Has(rs, r.name)
    ensures Delete(rs + [r], r.name) == rs
  {
    if rs == [] {
      assert (rs + [r])[1..] == [];
    } else {
      assert rs[0] in rs && forall q <- rs[1..] :: q in rs;
      assert (rs + [r])[1..] == rs[1..] + [r];
      DeleteLast(rs[1..], r);
    }
  }

  lemma {:induction false} KeptConcat(a: seq<string>, b: seq<string>, name: string)
    ensures Kept(a + b, name) == Kept(a, name) + Kept(b, name)
    decreases |a|
  {
    hide KeptLine;
    if a == [] {
      assert a + b == b;
    } else {
      assert (a + b)[1..] == a[1..] + b;
      KeptConcat(a[1..], b, name);
      Assoc(KeptLine(a[0], name), Kept(a[1..], name), Kept(b, name));
    }
  }

  lemma {:induction false} KeptAll(lines: seq<string>, name: string)
    requires Leading(name) && forall line <- lines :: FitsLine(line) && HasBar(line)
    ensures Kept(lines, name) == lines
    decreases |lines|
  {
    hide HasBar;
    if lines != [] {
      assert lines[0] in lines && forall line <- lines[1..] :: line in lines;
      FirstOfPrefix(name + "|", lines[0]);
      KeptAll(lines[1..], name);
      assert lines == [lines[0]] + lines[1..];
    }
  }

  /** Of an argument's lines a removal under its name keeps one: the rule without the newlines. */
  lemma {:induction false} KeptOfArgument(arg: string, name: string)
    requires Argument(arg) && HasBar(arg) && Leading(name)
    ensures Kept(LinesOf(arg), name) == [Stripped(arg)] && Stripped(arg) != ""
    decreases |arg|
  {
    hide FirstLine, Behind, LinesOf, HasBar, Argument;
    PlainArgument(arg);
    LinesOfNothing();
    if Leading(arg) {
      BarBehindNewline(arg);
      KeptOfArgument(arg[1..], name);
      EmptyFits();
      LineThenRest("", arg[1..]);
      assert "" + "\n" + arg[1..] == arg;
      LinesStep(arg);
      KeptConcat([""], LinesOf(arg[1..]), name);
      BlankNotKept(name);
      assert [] + [Stripped(arg[1..])] == [Stripped(arg[1..])];
    } else {
      SomeBar(arg);
      LastLine(arg);
      LinesStep(arg);
      KeptAll([arg], name);
      assert [arg] + [] == [arg];
      assert Span(arg, IsNewline) == 0 && arg[0..] == arg;
    }
  }

  lemma SomeBar(s: string)
    requires HasBar(s)
    ensures s != ""
  {
  }

  lemma BlankNotKept(name: string)
    ensures Kept([""], name) == []
  {
  }

  lemma BarBehindNewline(arg: string)
    requires HasBar(arg) && Leading(arg)
    ensures HasBar(arg[1..]) && Stripped(arg[1..]) == Stripped(arg)
  {
    var n := Span(arg, IsNewline);
    SpanIs(arg[1..], IsNewline, n - 1);
    assert arg[1..][n - 1..] == arg[n..];
  }

  /** Removing the name of an argument with a newline in front takes away the newlines and leaves the rule. */
  lemma LeadingRemoved(rs: seq<Rule>, arg: string)
    requires Good(rs) && Argument(arg) && Leading(arg) && HasBar(arg)
    ensures Removed(Appended(Content(rs), arg), NameOf(arg)) == Appended(Content(rs), Stripped(arg))
    ensures Stripped(arg) != ""
  {
    hide LinesOf, Kept, HasBar, Argument, HasName, HasAhead, Good, Texts, Appended, Join, KeptLine;
    var name, after := NameOf(arg), Appended(Content(rs), arg);
    NameLeads(arg);
    PlainArgument(arg);
    BarBehindNewline(arg);
    assert MayAdd(Content(rs), arg, after) by { LeadingAgain(rs, arg); }
    LeadingAdded(rs, arg, after);
    TextsNotEmpty(rs);
    KeptAll(Texts(rs), name);
    KeptOfArgument(arg[1..], name);
    BlankNotKept(name);
    KeptConcat(Texts(rs) + [""], LinesOf(arg[1..]), name);
    KeptConcat(Texts(rs), [""], name);
    NoTail(Texts(rs));
    AppendsText(rs, Stripped(arg));
  }

  lemma AppendedGrows(content: string, line: string)
    ensures Appended(content, line) == content <==> content == "" && line == ""
  {
    if content != "" { assert |Appended(content, line)| > |content|; }
  }

  /** Removing undoes an addition that succeeded, exactly when the rule's name is not empty and does not start
      with a newline: a rule with an empty name can be added, but no command removes it. */
  lemma RemoveUndoesAdd(rs: seq<Rule>, arg: string, added: string)
    requires Good(rs) && Argument(arg) && Addable(Content(rs), arg) && added == Appended(Content(rs), arg)
    ensures Removed(added, NameOf(arg)) == Content(rs) <==> NameOf(arg) != "" && !Leading(NameOf(arg))
  {
    hide Good, Content, Text, FitsLine, Removed, NameOf, TemplateOf, Appended, LinesOf, HasName;
    PlainArgument(arg);
    if Leading(arg) {
      NameLeads(arg);
      LeadingRemoved(rs, arg);
      AppendedGrows(Content(rs), Stripped(arg));
    } else {
      PlainRemoved(rs, arg);
    }
  }

  lemma PlainRemoved(rs: seq<Rule>, arg: string)
    requires Good(rs) && FitsLine(arg) && Addable(Content(rs), arg)
    ensures !Leading(NameOf(arg))
    ensures Removed(Appended(Content(rs), arg), NameOf(arg)) == Content(rs) <==> NameOf(arg) != ""
  {
    hide Good, Content, Text, FitsLine, Removed, TemplateOf, LinesOf, HasName;
    var r := RuleOf(arg);
    var added := Insert(rs, r);
    LineAdded(rs, arg);
    TextOfRule(arg);
    NamesFree(r);
    assert !Leading(NameOf(arg)) by { PlainStart(arg); }
    if r.name == "" {
      AppendedGrows(Content(rs), arg);
      NothingRemoved(Appended(Content(rs), arg));
    } else {
      RemoveRefines(added, r.name);
      DeleteByName(added, r.name);
      DeleteLast(rs, r);
    }
  }

  lemma PlainStart(arg: string)
    requires FitsLine(arg)
    ensures !Leading(NameOf(arg))
  {
  }
}
