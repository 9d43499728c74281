/** The chunked reader of rule files: a fixed buffer refilled by reads of unpredictable size. */
module RuleFiles {
  import opened CStrings
  import opened CBuffers

  /** An open file.  A read delivers at least one byte unless the file has ended, and otherwise as
      few or as many as it likes. */
  class InFile {
    var unread: string

    constructor (content: string)
      ensures unread == content
    {
      unread := content;
    }

    method Read(max: nat) returns (chunk: string)
      modifies this
      ensures chunk + unread == old(unread) && |chunk| <= max
      ensures chunk == "" <==> max == 0 || old(unread) == ""
    {
      if max == 0 || unread == "" {
        chunk := "";
      } else {
        var n: nat :| 1 <= n <= max && n <= |unread|;
        chunk := unread[..n];
        unread := unread[n..];
      }
    }
  }

  // ----- what the reader is meant to deliver

  /** The next line; a line that fills the buffer is cut there. */
  function FirstLine(data: string): string {
    data[..Find(Window(data), '\n')]
  }

  function Behind(data: string): (r: string)
    ensures data != "" ==> |r| < |data|
  {
    var n := Find(Window(data), '\n');
    if n < |Window(data)| then data[n + 1..] else data[n..]
  }

  function LinesOf(data: string): seq<string>
    decreases |data|
  {
    if data == "" then [] else [FirstLine(data)] + LinesOf(Behind(data))
  }

  predicate FitsLine(s: string) {
    IsLine(s) && |s| < MSG_MAX_SIZE
  }

  predicate FitLines(lines: seq<string>) {
    forall s <- lines :: FitsLine(s)
  }

  lemma LineThenRest(line: string, rest: string)
    requires FitsLine(line)
    ensures FirstLine(line + "\n" + rest) == line && Behind(line + "\n" + rest) == rest
  {
    WholeLine(line, rest);
  }

  lemma LastLine(line: string)
    requires FitsLine(line)
    ensures FirstLine(line) == line && Behind(line) == ""
  {
    assert line[..|line|] == line;
    FindIs(line, '\n', |line|);
  }

  /** A newline-joined file is read as its lines. */
  lemma {:induction false} LinesOfJoin(lines: seq<string>)
    requires FitLines(lines) && (lines != [] ==> lines[|lines| - 1] != "")
    ensures LinesOf(Join(lines, "\n")) == lines
  {
    if |lines| == 1 {
      assert FitsLine(lines[0]);
      LastLine(lines[0]);
    } else if |lines| > 1 {
      var rest := Join(lines[1..], "\n");
      assert FitsLine(lines[0]);
      LineThenRest(lines[0], rest);
      LinesOfJoin(lines[1..]);
    }
  }

  /** Lines and then anything: the lines come first. */
  lemma {:induction false} LinesInFront(lines: seq<string>, rest: string)
    requires FitLines(lines) && lines != []
    ensures LinesOf(Join(lines, "\n") + "\n" + rest) == lines + LinesOf(rest)
  {
    hide FirstLine, Behind, LinesOf, FitsLine;
    assert FitsLine(lines[0]);
    LinesStep(Join(lines, "\n") + "\n" + rest);
    if |lines| == 1 {
      LineThenRest(lines[0], rest);
    } else {
      var more := Join(lines[1..], "\n");
      Assoc(lines[0] + "\n", more, "\n");
      Assoc(lines[0] + "\n", more + "\n", rest);
      LineThenRest(lines[0], more + "\n" + rest);
      LinesInFront(lines[1..], rest);
      assert lines == [lines[0]] + lines[1..];
      Assoc([lines[0]], lines[1..], LinesOf(rest));
    }
  }

  /** A newline behind the last line adds no further line. */
  lemma LinesOfTerminated(lines: seq<string>)
    requires FitLines(lines) && lines != []
    ensures LinesOf(Join(lines, "\n") + "\n") == lines
  {
    hide LinesOf;
    LinesInFront(lines, "");
    LinesOfNothing();
    NoTail(lines);
    NoTail(Join(lines, "\n") + "\n");
  }

  lemma LinesStep(data: string)
    requires data != ""
    ensures LinesOf(data) == [FirstLine(data)] + LinesOf(Behind(data))
  {
  }

  /** A line of up to 1023 characters is read as it is; a longer one is cut behind its 1024th character, and
      what follows is read as a line of its own. */
  lemma LineCut(line: string, rest: string)
    requires Free(line, '\n')
    ensures |line| <= 1023 ==> LinesOf(line + "\n" + rest) == [line] + LinesOf(rest)
    ensures |line| >= 1024 ==> LinesOf(line + rest) == [line[..1024]] + LinesOf(line[1024..] + rest)
  {
    hide LinesOf, FirstLine, Behind;
    if |line| <= 1023 {
      var data := line + "\n" + rest;
      WholeLine(line, rest);
      LinesStep(data);
    } else {
      LinesStep(line + rest);
      CutLine(line, rest);
    }
  }

  lemma WholeLine(line: string, rest: string)
    requires Free(line, '\n') && |line| <= 1023
    ensures FirstLine(line + "\n" + rest) == line && Behind(line + "\n" + rest) == rest
  {
    var data := line + "\n" + rest;
    var w := Window(data);
    assert w[..|line|] == line && w[|line|] == '\n';
    FindIs(w, '\n', |line|);
  }

  lemma CutLine(line: string, rest: string)
    requires Free(line, '\n') && |line| >= 1024
    ensures FirstLine(line + rest) == line[..1024] && Behind(line + rest) == line[1024..] + rest
  {
    var data := line + rest;
    var w := line[..1024];
    assert Window(data) == w && w[..1024] == w;
    FindIs(w, '\n', 1024);
  }

  // ----- the reader

  /** The buffer holds a whole line, or is full, or there is nothing left to read. */
  predicate Filled(text: string, unread: string) {
    Find(text, '\n') < |text| || |text| == MSG_MAX_SIZE || unread == ""
  }

  /** The buffer behind its first line; nothing when no newline ends it. */
  function Carried(text: string): string {
    var n := Find(text, '\n');
    if n < |text| then text[n + 1..] else ""
  }

  lemma {:induction false} PrefixFind(text: string, w: string, n: nat)
    requires |text| <= |w| && w[..|text|] == text && n == Find(text, '\n')
    requires n < |text| || w == text
    ensures Find(w, '\n') == n
  {
    if n < |text| {
      assert w[n] == w[..|text|][n];
      assert w[..n] == text[..n];
      FindIs(w, '\n', n);
    }
  }

  lemma Cut(text: string, unread: string, n: nat)
    requires n <= |text|
    ensures (text + unread)[..n] == text[..n]
    ensures n < |text| ==> (text + unread)[n + 1..] == text[n + 1..] + unread
    ensures n == |text| ==> (text + unread)[n..] == unread
  {
  }

  lemma {:induction false} FilledLine(text: string, unread: string)
    requires |text| <= MSG_MAX_SIZE && Filled(text, unread)
    ensures FirstLine(text + unread) == text[..Find(text, '\n')]
    ensures Behind(text + unread) == Carried(text) + unread
    ensures text == "" <==> text + unread == ""
  {
    hide Window, Find;
    var data, n := text + unread, Find(text, '\n');
    var w := Window(data);
    WindowStarts(text, unread);
    PrefixFind(text, w, n);
    Cut(text, unread, n);
  }

  /** `read_fmt_entry`: drop the line in the buffer, keep what was read ahead, read until the buffer
      holds a line again.  Buffer and unread file together lose exactly the dropped line. */
  lemma Refilled(text: string, kept: string, chunk: string, unread: string, before: string, all: string)
    requires chunk + unread == before && text + before == kept + all && Free(before, '\0')
    ensures (text + chunk) + unread == kept + all && Free(chunk, '\0') && Free(unread, '\0')
  {
    Assoc(text, chunk, unread);
    assert forall k :: 0 <= k < |chunk| ==> chunk[k] == before[k];
    assert forall k :: 0 <= k < |unread| ==> unread[k] == before[|chunk| + k];
  }

  method ReadFmtEntry(file: InFile, message: CBuffer)
    requires message.Valid() && Free(file.unread, '\0')
    modifies file, message.cells
    ensures message.Valid() && Free(file.unread, '\0')
    ensures message.Text() + file.unread == Carried(old(message.Text())) + old(file.unread)
    ensures Filled(message.Text(), file.unread)
  {
    hide FirstLine, Behind, LinesOf, CStr, Find, Free;
    var p := Find(message.Text(), '\n');
    if p < |message.Text()| {
      message.Suffix(p + 1);
      message.Shift(p + 1);
    } else {
      message.Suffix(|message.Text()|);
      message.Shift(|message.Text()|);
    }
    ghost var kept := message.Text();
    assert kept == Carried(old(message.Text()));
    while Find(message.Text(), '\n') == |message.Text()|
      invariant message.Valid() && Free(file.unread, '\0')
      invariant message.Text() + file.unread == kept + old(file.unread)
      decreases |file.unread|
    {
      ghost var text, unread := message.Text(), file.unread;
      var chunk := file.Read(MSG_MAX_SIZE - |message.Text()|);
      Refilled(text, kept, chunk, file.unread, unread, old(file.unread));
      if chunk == "" {
        break;
      }
      message.Append(chunk);
    }
  }

  /** A rule file being visited entry by entry: the open file and the caller's buffer. */
  class LineReader {
    const file: InFile
    const buffer: CBuffer

    ghost predicate Valid()
      reads this, file, buffer, buffer.cells
    {
      buffer.Valid() && Free(file.unread, '\0') && Filled(buffer.Text(), file.unread)
    }

    /** What has not been visited: the buffer and the unread file. */
    ghost function Data(): string
      reads file, buffer.cells
    {
      buffer.Text() + file.unread
    }

    ghost function Footprint(): set<object> {
      {file, buffer.cells}
    }

    constructor (content: string)
      requires Free(content, '\0')
      ensures Valid() && fresh(Footprint()) && Data() == content
    {
      hide Filled, Carried;
      var f := new InFile(content);
      var b := new CBuffer();
      file, buffer := f, b;
      new;
      ReadFmtEntry(file, buffer);
      CarriedNothing(content);
    }

    /** `strlen(rule) > 0` */
    method More() returns (more: bool)
      requires Valid()
      ensures more <==> Data() != ""
    {
      FilledLine(buffer.Text(), file.unread);
      more := |buffer.Text()| > 0;
    }

    /** The entry in the buffer, up to its newline. */
    method Line() returns (line: string)
      requires Valid()
      ensures line == FirstLine(Data()) == buffer.Text()[..Find(buffer.Text(), '\n')]
    {
      FilledLine(buffer.Text(), file.unread);
      line := buffer.Text()[..Find(buffer.Text(), '\n')];
    }

    method Next()
      requires Valid()
      modifies Footprint()
      ensures Valid() && Data() == Behind(old(Data()))
    {
      FilledLine(buffer.Text(), file.unread);
      ReadFmtEntry(file, buffer);
    }
  }

  /** All entries of a file, as every caller of the reader visits them, however the reads are cut. */
  method ReadAll(content: string) returns (lines: seq<string>)
    requires Free(content, '\0')
    ensures lines == LinesOf(content)
  {
    hide LinesOf, FirstLine, Behind;
    var reader := new LineReader(content);
    lines := [];
    var more := reader.More();
    while more
      invariant reader.Valid() && fresh(reader.Footprint()) && more == (reader.Data() != "")
      invariant lines + LinesOf(reader.Data()) == LinesOf(content)
      decreases |reader.Data()|
    {
      LinesStep(reader.Data());
      var line := reader.Line();
      lines := lines + [line];
      reader.Next();
      more := reader.More();
    }
    LinesOfNothing();
  }

  lemma CarriedNothing(unread: string)
    ensures Carried("") + unread == unread
  {
  }

  lemma LinesOfNothing()
    ensures LinesOf("") == []
  {
  }
}
