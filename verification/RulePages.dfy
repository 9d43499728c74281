/** The pages in which the rule names of a source are listed: what they hold for any file, and when they hold
    every name once. */
module RulePages {
  import opened CStrings
  import opened RuleFiles
  import opened InfoSources
  import opened RuleStore

  // ----- any lines

  /** The names of the lines with a bar, in order. */
  function BarNames(lines: seq<string>): (names: seq<string>)
    ensures |names| <= |lines|
  {
    if lines == [] then [] else (if HasBar(lines[0]) then [NameOf(lines[0])] else []) + BarNames(lines[1..])
  }

  lemma {:induction false} CountIsNames(lines: seq<string>)
    ensures WellFormedCount(lines) == |BarNames(lines)|
    decreases |lines|
  {
    if lines != [] { CountIsNames(lines[1..]); }
  }

  lemma {:induction false} NamesSplit(lines: seq<string>, n: nat)
    requires n <= |lines|
    ensures BarNames(lines) == BarNames(lines[..n]) + BarNames(lines[n..])
    decreases n
  {
    hide HasBar, NameOf;
    if n == 0 {
      assert lines[0..] == lines && lines[..0] == [];
    } else {
      NamesSplit(lines[1..], n - 1);
      assert lines[1..][..n - 1] == lines[..n][1..] && lines[1..][n - 1..] == lines[n..];
      Assoc(if HasBar(lines[0]) then [NameOf(lines[0])] else [], BarNames(lines[..n][1..]), BarNames(lines[n..]));
    }
  }

  lemma {:induction false} AllBarred(lines: seq<string>)
    ensures |BarNames(lines)| == |lines| <==> forall k :: 0 <= k < |lines| ==> HasBar(lines[k])
    ensures |BarNames(lines)| == |lines| ==> forall k :: 0 <= k < |lines| ==> BarNames(lines)[k] == NameOf(lines[k])
    decreases |lines|
  {
    hide HasBar, NameOf;
    if lines != [] {
      AllBarred(lines[1..]);
      assert forall k :: 1 <= k < |lines| ==> lines[k] == lines[1..][k - 1];
      assert forall k :: 0 <= k < |lines| - 1 ==> lines[1..][k] == lines[k + 1];
    }
  }

  function Drop<T>(s: seq<T>, n: int): seq<T> {
    if n <= 0 then s else if n >= |s| then [] else s[n..]
  }

  function Take<T>(s: seq<T>, n: int): seq<T> {
    if n <= 0 then [] else if n >= |s| then s else s[..n]
  }

  /** The names of a page: the first ten of the well-formed lines behind ten lines, of whatever form, for each
      page in front. */
  function PageNames(lines: seq<string>, page: nat): (names: seq<string>)
    requires page >= 1
    ensures |names| <= 10
  {
    Take(BarNames(Drop(lines, 10 * (page - 1))), 10)
  }

  /** The same from a line that follows `nr` numbered ones. */
  function NamesBehind(lines: seq<string>, nr: nat, page: nat): seq<string>
    requires page >= 1
  {
    Take(BarNames(Drop(lines, 10 * (page - 1) - nr)), if nr < 10 * (page - 1) then 10 else 10 * page - nr)
  }

  function Listed(names: seq<string>): string {
    if names == [] then "" else names[0] + "," + Listed(names[1..])
  }

  lemma {:induction false} ListedJoin(names: seq<string>)
    requires names != []
    ensures Listed(names) == Join(names, ",") + ","
    decreases |names|
  {
    if |names| == 1 {
      NoTail(names[0] + ",");
    } else {
      ListedJoin(names[1..]);
      Assoc(names[0] + ",", Join(names[1..], ","), ",");
    }
  }

  lemma OnPageIs(k: nat, page: nat)
    requires page >= 1
    ensures OnPage(k + 1, page) <==> 10 * (page - 1) <= k < 10 * page
  {
  }

  lemma DropStep(lines: seq<string>, n: nat)
    requires lines != [] && n >= 1
    ensures Drop(lines, n) == Drop(lines[1..], n - 1)
  {
    if n < |lines| { assert lines[1..][n - 1..] == lines[n..]; }
  }

  lemma BehindStep(lines: seq<string>, nr: nat, page: nat)
    requires page >= 1 && lines != []
    ensures NamesBehind(lines, nr, page) ==
      if !(10 * (page - 1) <= nr < 10 * page) then NamesBehind(lines[1..], nr + 1, page)
      else if HasBar(lines[0]) then [NameOf(lines[0])] + NamesBehind(lines[1..], nr + 1, page)
      else NamesBehind(lines[1..], nr, page)
  {
    hide HasBar, NameOf;
    if nr < 10 * (page - 1) {
      DropStep(lines, 10 * (page - 1) - nr);
    } else {
      assert Drop(lines, 10 * (page - 1) - nr) == lines && Drop(lines[1..], 10 * (page - 1) - nr) == lines[1..];
    }
  }

  lemma NothingBehind(lines: seq<string>, nr: nat, page: nat)
    requires page >= 1 && (lines == [] || nr >= 10 * page)
    ensures NamesBehind(lines, nr, page) == []
  {
  }

  lemma {:induction false} PageTextIs(lines: seq<string>, nr: nat, page: nat)
    requires page >= 1
    ensures PageText(lines, nr, page) == Listed(NamesBehind(lines, nr, page))
    decreases |lines|
  {
    hide OnPage, HasBar, NameOf, NamesBehind;
    if lines == [] || nr / ENTRIES_PER_PAGE + 1 > page + 1 {
      NothingBehind(lines, nr, page);
    } else {
      OnPageIs(nr, page);
      BehindStep(lines, nr, page);
      PageTextIs(lines[1..], nr, page);
      PageTextIs(lines[1..], nr + 1, page);
      var more := NamesBehind(lines[1..], nr + 1, page);
      assert ([NameOf(lines[0])] + more)[1..] == more;
    }
  }

  /** What is answered for a page of any file. */
  lemma PageReplyIs(lines: seq<string>, page: int)
    ensures page <= 0 ==> PageReply(lines, page) == "Invalid page"
    ensures page >= 1 && PageNames(lines, page) == [] ==> PageReply(lines, page) == "Error: Invalid page"
    ensures page >= 1 && PageNames(lines, page) != [] ==> PageReply(lines, page) == Join(PageNames(lines, page), ",")
  {
    if page >= 1 {
      PageTextIs(lines, 0, page);
      assert NamesBehind(lines, 0, page) == PageNames(lines, page);
      var names := PageNames(lines, page);
      if names != [] { ListedJoin(names); }
    }
  }

  /** The announced number of pages is the least that has room for ten names each. */
  lemma PageCountIs(lines: seq<string>)
    ensures 10 * (PageCount(lines) - 1) < |BarNames(lines)| <= 10 * PageCount(lines) || PageCount(lines) == 0
    ensures PageCount(lines) == 0 <==> BarNames(lines) == []
  {
    CountIsNames(lines);
  }

  // ----- all pages together

  function PagesUpTo(lines: seq<string>, pages: nat): seq<string> {
    if pages == 0 then [] else PagesUpTo(lines, pages - 1) + PageNames(lines, pages)
  }

  lemma FullPage(lines: seq<string>, page: nat)
    requires 1 <= page < PageCount(lines)
    ensures |PageNames(lines, page)| == 10
  {
    var n := 10 * (page - 1);
    PageCountIs(lines);
    NamesSplit(lines, n);
  }

  lemma {:induction false} FullPages(lines: seq<string>, pages: nat)
    requires pages < PageCount(lines)
    ensures |PagesUpTo(lines, pages)| == 10 * pages
  {
    hide PageCount, PageNames;
    if pages > 0 {
      FullPages(lines, pages - 1);
      FullPage(lines, pages);
    }
  }

  /** The lines in front of the last page. */
  function Front(lines: seq<string>): (n: nat)
    ensures n <= |lines|
  {
    PageCountIs(lines);
    if PageCount(lines) == 0 then 0 else 10 * (PageCount(lines) - 1)
  }

  lemma {:induction false} PagesOfBarred(lines: seq<string>, pages: nat)
    requires 10 * pages <= |lines| && forall k :: 0 <= k < 10 * pages ==> HasBar(lines[k])
    ensures PagesUpTo(lines, pages) == BarNames(lines[..10 * pages])
    decreases pages
  {
    hide HasBar, BarNames;
    if pages == 0 {
      assert lines[..0] == [];
      assert BarNames([]) == [];
    } else {
      var n := 10 * (pages - 1);
      PagesOfBarred(lines, pages - 1);
      BarredPage(lines, n);
    }
  }

  lemma BarredPage(lines: seq<string>, n: nat)
    requires n + 10 <= |lines| && forall k :: n <= k < n + 10 ==> HasBar(lines[k])
    ensures Take(BarNames(Drop(lines, n)), 10) == BarNames(lines[n..n + 10])
    ensures BarNames(lines[..n + 10]) == BarNames(lines[..n]) + BarNames(lines[n..n + 10])
  {
    hide HasBar, BarNames;
    var ten := lines[n..n + 10];
    assert forall k :: 0 <= k < 10 ==> ten[k] == lines[n + k];
    AllBarred(ten);
    NamesSplit(lines[..n + 10], n);
    assert lines[..n + 10][..n] == lines[..n] && lines[..n + 10][n..] == ten;
    NamesSplit(lines[n..], 10);
    assert lines[n..][..10] == ten && Drop(lines, n) == lines[n..];
  }

  lemma LastPage(lines: seq<string>)
    requires PageCount(lines) >= 1
    ensures PageNames(lines, PageCount(lines)) == Take(BarNames(lines[Front(lines)..]), 10)
    ensures BarNames(lines) == BarNames(lines[..Front(lines)]) + BarNames(lines[Front(lines)..])
  {
    hide BarNames;
    PageCountIs(lines);
    NamesSplit(lines, Front(lines));
    assert Drop(lines, Front(lines)) == lines[Front(lines)..];
  }

  predicate Distinct(names: seq<string>) {
    forall i, j :: 0 <= i < j < |names| ==> names[i] != names[j]
  }

  /** The announced pages of a file with distinct names list every name once and in order exactly when all
      lines in front of the last page are well formed: a malformed line gives its number back only on the page
      that meets it. */
  lemma ListingIsExact(lines: seq<string>)
    requires Distinct(BarNames(lines))
    ensures PagesUpTo(lines, PageCount(lines)) == BarNames(lines) <==>
              forall k :: 0 <= k < Front(lines) ==> HasBar(lines[k])
  {
    hide HasBar, BarNames, PageCount, PageNames;
    var pages, names := PageCount(lines), BarNames(lines);
    PageCountIs(lines);
    if pages > 0 {
      var n := Front(lines);
      LastPage(lines);
      FullPages(lines, pages - 1);
      AllBarred(lines[..n]);
      assert forall k :: 0 <= k < n ==> lines[..n][k] == lines[k];
      var last := BarNames(lines[n..]);
      if forall k :: 0 <= k < n ==> HasBar(lines[k]) {
        PagesOfBarred(lines, pages - 1);
      } else {
        assert names[|BarNames(lines[..n])|] == last[0];
        assert PagesUpTo(lines, pages)[n] == last[0];
      }
    }
  }

  /** A blank line in front of eleven rules: the second page repeats the last name of the first. */
  lemma BlankLineRepeats(rules: seq<string>)
    requires |rules| == 11 && forall k :: 0 <= k < |rules| ==> HasBar(rules[k])
    ensures PageCount([""] + rules) == 2
    ensures |PageNames([""] + rules, 1)| == 10 && PageNames([""] + rules, 1)[9] == NameOf(rules[9])
    ensures PageNames([""] + rules, 2) == [NameOf(rules[9]), NameOf(rules[10])]
  {
    hide NameOf;
    var lines := [""] + rules;
    AllBarred(rules);
    assert lines[1..] == rules && BarNames(lines) == BarNames(rules);
    CountIsNames(lines);
    assert lines[10..] == rules[9..] && Drop(lines, 10) == rules[9..] && Drop(lines, 0) == lines;
    AllBarred(rules[9..]);
  }

  // ----- the files of a rule list

  function Names(rs: seq<Rule>): (names: seq<string>)
    ensures |names| == |rs| && forall k :: 0 <= k < |rs| ==> names[k] == rs[k].name
  {
    seq(|rs|, i requires 0 <= i < |rs| => rs[i].name)
  }

  lemma GoodNames(rs: seq<Rule>)
    requires Good(rs)
    ensures BarNames(LinesOf(Content(rs))) == Names(rs) && Distinct(Names(rs))
    ensures forall k :: 0 <= k < |LinesOf(Content(rs))| ==> HasBar(LinesOf(Content(rs))[k])
  {
    hide LinesOf, Content, HasBar, NameOf, Text, BarNames;
    ReadsBack(rs);
    var lines := Texts(rs);
    forall k | 0 <= k < |rs| ensures HasBar(lines[k]) && NameOf(lines[k]) == rs[k].name {
      assert GoodRule(rs[k]);
      NamesFree(rs[k]);
      RuleOfText(rs[k]);
    }
    AllBarred(lines);
  }

  /** The pages from 1 to the announced count list every rule once, in file order; every page but the
      last has exactly ten names, the last has at least one, and any further page is invalid. */
  lemma PagesListAll(rs: seq<Rule>)
    requires Good(rs)
    ensures var lines, names := LinesOf(Content(rs)), Names(rs);
            var pages := PageCount(lines);
            PagesUpTo(lines, pages) == names
            && (forall page :: 1 <= page < pages ==> |PageNames(lines, page)| == 10)
            && (pages > 0 ==> 1 <= |PageNames(lines, pages)| <= 10)
            && forall page :: page > pages ==> PageReply(lines, page) == "Error: Invalid page"
  {
    hide Content, LinesOf, PageReply, Good, HasBar, NameOf, PageCount, BarNames;
    GoodNames(rs);
    var lines := LinesOf(Content(rs));
    var pages := PageCount(lines);
    ListingIsExact(lines);
    PageCountIs(lines);
    AllBarred(lines);
    if pages > 0 { LastPage(lines); }
    forall page | 1 <= page < pages ensures |PageNames(lines, page)| == 10 {
      FullPage(lines, page);
    }
    forall page | page > pages ensures PageReply(lines, page) == "Error: Invalid page" {
      PageReplyIs(lines, page);
      assert Drop(lines, 10 * (page - 1)) == [];
      assert BarNames([]) == [];
    }
  }
}
