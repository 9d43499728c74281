# A verified model of the log pipeline

An agent watches log files. Each line is tried against the rule templates of its source; the first
template that matches turns the line into a JSON-like record. Records travel to the server over a
length-framed stream, are appended to a file per source, and are counted there by clients: a count query
streams the file through a 1024-byte buffer and searches every record for its conditions, and a graph is a
series of such queries over neighbouring ranges of time. Rules are kept by the agent in text files and
edited by commands that the server forwards, with the answers matched to waiting threads by thread id.

The project models that pipeline from the log line to the query answer. Loops over buffers are methods with
their cursors, fixed buffers are arrays, and each method is proved against a function that says what it
computes; the lemmas then say what those functions mean, with no cursor or buffer left in them. The chain
ends in `Pipeline.EndToEnd`: log lines go through a rule file, the wire and a log file, and the number that
comes out is the number of lines whose selected rule and captured arguments meet the conditions.

## Conventions

- A `char` stands for one byte, a `string` for the bytes in front of a NUL. Reading behind the end of a
  text yields NUL, as in a zero-filled buffer.
- Reads of rule files and of sockets deliver any number of bytes from one up; reads of log files fill the
  buffer unless the file ends.
- Fractions of seconds in the graph are exact: the carried `rest` is an integer numerator over the number of
  samples.
- A connection that breaks reports any number of errors before it reports its end.
- A thread id that comes back comes back with the stack of its thread, and so with the addresses of the request and
  the buffer that lie on it.
- Times are seconds of a year with 365 days: the client parses its dates without a year, which means 1900.

## Files

- `Strings.dfy`, `Buffers.dfy`: C strings, C library searches, and the character buffer.
- `Dates.dfy`, `Templates.dfy`, `TemplateTexts.dfy`, `Records.dfy`, `Json.dfy`: the timestamp, the template
  language and its spelling, the printed record, and the JSON grammar.
- `RuleParser.dfy`, `ReadAhead.dfy`, `RuleFiles.dfy`, `InfoSources.dfy`, `RuleStore.dfy`, `RulePages.dfy`: the matching
  loop, what text read ahead does to it, the chunked reader, the operations on a source, the rule file as an
  ordered map, and its pages.
- `Conditions.dfy`, `RecordMatch.dfy`, `RecordQueries.dfy`, `CountQuery.dfy`, `LogQueries.dfy`: the condition
  parser, the search in the buffer, its meaning on records, the record splitter, and the whole query.
- `Graph.dfy`, `GraphLaws.dfy`: the graph command, and what its samples add up to.
- `Framing.dfy`, `Agents.dfy`, `Requests.dfy`, `Pipeline.dfy`: messages on a stream, the agent's command loop,
  request correlation, and the composition of everything.

## Where the code and its evident intent differ

The model follows the code, except for the uninitialised `rest`.

- A nameless string parameter always stops at a colon, because the template cursor still stands in front of
  the name when the delimiter is taken (Agent/InfoSource.h:276-288). See `Templates.LexText`.
- `rest` is read before it is set (Client/Client.cpp:247, 281); it starts at 0 in the model.
- The correction of the last graph boundary is guarded by a condition that never holds inside its loop
  (Client/Client.cpp:282), so the samples end one second early unless the range divides evenly. See
  `Graph.LastBoundary`.
- The byte count of a receive is unsigned, so an error takes one from it instead of being a failure, and below zero
  it is more than any length: a connection that breaks inside a message delivers the message filled up with zeros
  if it reports more errors than bytes had arrived (common_definitions.h:48-65). See
  `Framing.ResetInsideMessage`.
- A line that ends inside the day of a timestamp is read on into the text behind its newline when that text
  goes on with a clock (Agent/InfoSource.h:471-501). See `ReadAhead.ReadAheadIsExact`.
- Splitting a command at its newlines leaves newlines in front of the argument (Agent/Agent.cpp:250-253). An added
  rule then brings a blank line into the rule file, the test for its name fails, and the name can stand there
  twice: `A|x` and an addition of `\nA|y` give `A|x\n\nA|y`. Showing a rule behind the blank line writes through a
  null pointer. See `RuleStore.DuplicateName` and `RuleStore.LeadingNewlineBreaks`.
- A found request is not locked until its answer is written, so the answer can go to the buffer of a worker that
  has left meanwhile, and to the next thread that gets its id (Server/Agent.h:115-117). See
  `Requests.WriteAfterLeave` and `Requests.PendingWriteMisdelivers`.
- Day numbers are read with `atoi` from two columns but checked as a whole, so the day may be 0, unpadded or
  no number at all, and two blank columns take the hour for the day (Agent/InfoSource.h:475-481). See
  `Dates.DateLineReads`.
- Names of parameters hold capital letters, digits and underscores only, so the rules with `"arbiter"`, `"username"`
  or `"uid"` in Agent/_var_log_auth.log.fmt are malformed and match no line (Agent/InfoSource.h:217-242). See
  `TemplateTexts.OtherNamesRefused`.
- Paging gives a malformed line its number back only on the page that meets it (Agent/Agent.cpp:577-596), so a blank
  line in the file makes a later page repeat names. See `RulePages.ListingIsExact` and `RulePages.BlankLineRepeats`.

## Properties that hold only under a condition

Each is stated with its exact condition, in both directions.

- The splitter visits every record if and only if all but the last have at most 1021 characters and the last
  at most 1024 (`CountQuery.ScanIsExact`).
- A record ends where the splitter ends it if and only if no captured value contains `]}`
  (`Records.RecordCloses`).
- A record is valid JSON if and only if the backslashes of each captured value form complete escapes
  (`Json.RecordIsJson`).
- Text read ahead behind a log line leaves every rule and every line alone if and only if it does not go on, at
  its first or second character, with a blank and a clock that complete a timestamp
  (`ReadAhead.ReadAheadIsExact`).
- The samples of a graph count every entry of the covered range once, for every log, if and only if the range
  has at least one second per sample (`GraphLaws.ConservationIsExact`).
- Accepted conditions can be extended by the graph if and only if they end with the quote of their last value
  (`Conditions.AppendParses`, `GraphLaws.OpenConditionsRefused`).
- An addition with a bar keeps the file the text of distinct well-formed rules if and only if its argument has no
  newline in front (`RuleStore.AddRefines`), and so does every command of a run (`RuleStore.RunRefines`); a second
  delivery is harmless under the same condition (`RuleStore.DuplicateIsHarmless`).
- A removal takes exactly the named rule, from every file, if and only if its argument is not empty, and has no bar
  unless it starts with a newline or leaves no room for a bar behind it (`RuleStore.RemoveIsExact`); it
  undoes an addition if and only if the name is not empty and has no newline in front
  (`RuleStore.RemoveUndoesAdd`); a rule is shown if and only if its template is not empty (`RuleStore.ShowTells`).
- The announced pages list every name of a file with distinct names once and in order if and only if all lines in
  front of the last page are well formed (`RulePages.ListingIsExact`).
- Of a message whose frame breaks off, zeros make up for what is missing if and only if the connection reports more
  errors than bytes of the body had arrived; of a header of one byte, three errors are needed
  (`Framing.ResetInsideMessage`).
- The reversals of the two applications cancel if and only if both hosts have the same endianness, or the
  message reads the same both ways (`Framing.ReversalsCancel`).
- A thread id may be taken again, with answers still reaching only the workers that asked for them in every
  further run, if and only if no command in flight carries it, no acknowledgement with a text, and no text that
  has been looked up and not been written yet (`Requests.ReuseIsExact`).
- Two sources share their rule file and their log file if and only if their paths differ in slashes and
  underscores only (`Pipeline.SharedFiles`).

## Model

| member | source | states |
|---|---|---|
| CStrings.LessIsLower | Server/ClientDispatcher.cpp:525-551 | the `strcmp` order in terms of characters: below means agreeing up to a position where one text ends or has the lower character |
| CBuffers.CBuffer.Append | Agent/InfoSource.h:58-74 | a read behind the text of a buffer, then a NUL, appends exactly the bytes read |
| CBuffers.CBuffer.Shift | Agent/InfoSource.h:44-48 | printing the tail of a buffer over its start leaves exactly that tail |
| Dates.ReadDate | Agent/InfoSource.h:454-501 | an accepted date has at least 15 characters, month 1-12, day 0-31 and two-digit clock fields |
| Dates.DateRoundTrip | Agent/InfoSource.h:454-501 | every timestamp written as section 4.1.2 of RFC 3164 asks is read back with all its fields, whatever follows it |
| Dates.DateLineReads | Agent/InfoSource.h:454-501 | of a line with a month name, two columns and a clock: exactly for which columns it is a date, zero-padded, one-digit, blank and signed ones included, and with which fields it is read |
| Dates.DateLineOnly | Agent/InfoSource.h:454-501 | every text that is accepted as a date starts with such a line |
| Dates.PrintDate | Agent/InfoSource.h:503-504 | a printed date has exactly 14 characters, all of them digits, blanks or colons |
| Dates.PrintedColumns | Agent/InfoSource.h:503-504 | which columns of a printed date hold which field, as two decimal digits |
| Dates.PrintedOrder | Server/ClientDispatcher.cpp:525-551 | comparing two printed dates as strings is comparing (month, day, hour, minute, second) as numbers |
| Dates.PrintedInjective | Server/ClientDispatcher.cpp:526-531 | two dates that print alike are equal field by field |
| Dates.FormatOrder | Client/Client.cpp:286-296 | the text the client prints for a time keeps the order of times within the year, and tells times apart |
| Dates.StampOfSecond | Client/Client.cpp:286-296 | for every date of the calendar, with the lengths of the months written out, the fields printed for its second of the year are that date |
| Dates.SecondOfStamp | Client/Client.cpp:286-296 | every second of the year has a date of the calendar, and is the second of that date |
| Templates.MatchTextIsMatch | Agent/InfoSource.h:197-549 | tokenising and matching in one pass accepts a line, with the same arguments, exactly when the whole template is well formed and its token list matches |
| Templates.MatchIffCut | Agent/InfoSource.h:197-549 | a template matches a buffer with given arguments exactly when the text can be cut into one maximal piece per token and an end of line, and the arguments are the named pieces |
| Templates.TokeniseDelimits | Agent/InfoSource.h:335-348 | in a well-formed template the token behind a named string parameter starts with that parameter's delimiter |
| Templates.TemplateRoundTrip | Agent/InfoSource.h:203-521 | writing admissible values into a well-formed template, escaped blanks as any run or as nothing, and parsing the line gives exactly those values in template order, whatever is read ahead |
| Templates.WrittenDateReported | Agent/InfoSource.h:422-510 | a written timestamp is reported as its printed form |
| Templates.TextIsReported | Agent/InfoSource.h:350-353 | characters with codes 32 to 126 but the delimiter and the quote, up to any other character, are taken and reported as a whole, blanks included |
| Templates.DateLocal | Agent/InfoSource.h:475-481 | although the day is read with an unbounded number scan, a date depends on its 15 characters only |
| TemplateTexts.SpellReads | Agent/InfoSource.h:198-523 | writing a token list as a template and tokenising it gives the list back |
| TemplateTexts.TemplatesAreSpellable | Agent/InfoSource.h:198-523 | a token list is what some template says exactly when its names are good, its delimiters are those of the tokens behind, and no blank follows an escaped blank |
| TemplateTexts.PlainSpellingMatches | Agent/InfoSource.h:198-523 | redundant escapes and repeated blanks in a template do not change what it matches |
| TemplateTexts.StringTexts | Agent/InfoSource.h:270-348 | the template text of a named string with what may stand behind it: the delimiter, or the error |
| TemplateTexts.OtherNamesRefused | Agent/InfoSource.h:206-242 | a parameter whose quoted name holds any character but capital letters, digits and underscores is malformed |
| Records.MatchedIsClean | Agent/InfoSource.h:232-261 | every reported argument has an upper-case name and a printable value without quotes, and numbers consist of digits |
| Records.RecordText | Agent/InfoSource.h:188-193 | the text of a record with no argument and with one, and what one more in front adds |
| Records.RecordIsPieces | Agent/InfoSource.h:188-193 | a record is its fixed pieces, names and values joined by quotes |
| Records.RecordRoundTrip | Agent/InfoSource.h:188-266 | the text of a record determines rule name and ordered (type, name, value) triples, with no argument as well |
| Records.RecordCloses | Server/ClientDispatcher.cpp:404-409 | the first closing pair in a record is its end exactly when no captured value contains the pair |
| Records.RecordEnds | Server/ClientDispatcher.cpp:404-409 | the same in terms of characters: the last two are the only bracket with a brace behind it exactly when no value holds such a pair |
| Records.RecordHasNoNul | Server/Agent.h:230-232 | a record can be handled as a C string |
| Json.RecordIsJson | Agent/InfoSource.h:525-533 | a record is valid JSON (RFC 8259) exactly when the backslashes of every value form complete escapes |
| Json.RecordWithoutBackslashIsJson | Agent/InfoSource.h:525-533 | a record whose values contain no backslash is valid JSON |
| RuleParser.ScanName | Agent/InfoSource.h:206-242 | the name scan takes the quoted name, or the nameless form, or refuses, as the template grammar says |
| RuleParser.ScanDigits | Agent/InfoSource.h:250-253 | the digit loop takes the longest run of digits |
| RuleParser.ScanText | Agent/InfoSource.h:350-353 | the text loop takes the longest run of characters with codes 32 to 126 without delimiter and quote |
| RuleParser.ScanClock | Agent/InfoSource.h:485-501 | the column checks accept exactly the clock of the date grammar and move by eight |
| RuleParser.ScanDate | Agent/InfoSource.h:454-501 | the column checks accept exactly the dates of the date grammar and move by fifteen |
| RuleParser.NumberParam | Agent/InfoSource.h:203-269 | a number parameter does one token: both cursors and the printed text move by what the token takes, or the attempt fails |
| RuleParser.ScanDelimiter | Agent/InfoSource.h:276-348 | the look-ahead finds the delimiter of the token, or refuses a parameter right behind a string |
| RuleParser.TextParam | Agent/InfoSource.h:270-369 | the same for a string parameter |
| RuleParser.DateParam | Agent/InfoSource.h:370-511 | the same for a date parameter |
| RuleParser.SkipBlanks | Agent/InfoSource.h:512-515 | the blank loop on the line takes the longest run of blanks and tabs |
| RuleParser.SkipSpaces | Agent/InfoSource.h:512-515 | the loop on the template stops on the last of the blanks behind an escaped blank |
| RuleParser.EscapedBlanks | Agent/InfoSource.h:512-515 | an escaped blank takes all blanks and tabs of the line and all blanks of the template |
| RuleParser.Escaped | Agent/InfoSource.h:198-523 | the switch behind a backslash does one token of the template, or fails exactly when the token does not match |
| RuleParser.PrintedIsRecord | Agent/InfoSource.h:527-532 | removing the last comma and closing the brackets turns the printed text into the record |
| RuleParser.CloseRecord | Agent/InfoSource.h:525-535 | the closing step leaves exactly the record of the arguments printed so far |
| RuleParser.LongStaysLong | Agent/InfoSource.h:197 | a text that has reached the size limit between two tokens belongs to no record below the limit |
| RuleParser.RuleLine | Agent/InfoSource.h:165-197 | a name of capital letters, digits and underscores, a bar and a template: the record of the captured arguments, if it has at most 1023 characters |
| RuleParser.RunTemplate | Agent/InfoSource.h:188-554 | the two-cursor loop ends with both cursors in range, and yields the matcher's record exactly when there is one below 1024 characters, for any text in the message buffer |
| RuleParser.ParseRule | Agent/InfoSource.h:165-554 | the attempt at one rule line, name included, agrees with the declarative matcher in both directions, whatever is read ahead behind the rule and behind the log line |
| ReadAhead.NewlineColumn | Agent/InfoSource.h:454-501 | the only columns of a timestamp that a newline can take are the two of the day |
| ReadAhead.LineDecides | Agent/InfoSource.h:165-554 | a rule does with a line and text read ahead what it does with the line alone, unless that text goes on like a timestamp |
| ReadAhead.ReadAheadIsExact | Agent/InfoSource.h:165-554 | text read ahead leaves all rules and lines alone exactly when it does not go on like a timestamp; else some rule matches some line only because of it |
| RuleFiles.ReadFmtEntry | Agent/InfoSource.h:40-78 | one call drops exactly the line in the buffer, conserves everything behind it, and leaves a whole line, a full buffer or the end of the file |
| RuleFiles.ReadAll | Agent/InfoSource.h:154-165 | however the reads are cut, the entries visited are the lines of the file |
| RuleFiles.LinesOfJoin | Agent/InfoSource.h:40-78 | a newline-joined file of lines below 1024 bytes is read as those lines |
| RuleFiles.LinesOfTerminated | Agent/InfoSource.h:40-78 | a newline behind the last line adds no entry |
| RuleFiles.LineCut | Agent/InfoSource.h:40-78 | lines up to 1023 characters are read whole; a longer one is cut behind its 1024th character |
| InfoSources.SelectIsFirst | Agent/InfoSource.h:165-197 | the record is that of the first rule in file order that matches and fits |
| InfoSources.SelectFails | Agent/InfoSource.h:551-560 | no record is produced exactly when no rule yields one that fits |
| InfoSources.InfoSource.FlatPath | Agent/InfoSource.h:127-132 | the name has no slash, and differs from the path only where a slash became an underscore |
| InfoSources.InfoSource.ParseEntry | Agent/InfoSource.h:116-567 | for any text in the message buffer, the result is the path with underscores for slashes, a tab and the selected record, or the failure of all rules, or the failure to open the rule file |
| InfoSources.InfoSource.HasRule | Agent/InfoSource.h:594-631 | a name without a newline is found exactly when some line starts with it and a bar; with newlines it is found at most where the name and the bar stand across line ends |
| InfoSources.InfoSource.AddRule | Agent/InfoSource.h:633-685 | the file grows by the rule, behind a newline unless it was empty, exactly when the rule has a bar and its name is not found |
| InfoSources.InfoSource.TreatAdd | Agent/Agent.cpp:291-312 | the file after the command for any argument, and the answer for each way it can end |
| InfoSources.CopyWithout | Agent/Agent.cpp:371-414 | the loop writes exactly the kept well-formed lines, newline-joined, and tells whether the name was there |
| InfoSources.InfoSource.TreatRemove | Agent/Agent.cpp:331-451 | the new file holds the kept well-formed lines, newline-joined, and the answer tells whether the name was there |
| InfoSources.KeptIs | Agent/Agent.cpp:371-414 | among any lines, a removal keeps exactly those with a bar that do not start with the name and a bar |
| InfoSources.InfoSource.TreatShow | Agent/Agent.cpp:645-698 | the answer is the template of the first rule of that name, the message for a missing rule, or the crash on a line without a bar |
| InfoSources.ShownIs | Agent/Agent.cpp:645-698 | on any lines, behind lines of other names: the template, the message for a missing rule, or the crash |
| InfoSources.InfoSource.TreatHowMany | Agent/Agent.cpp:486-529 | the answer is the number of pages for the well-formed lines |
| InfoSources.CollectPage | Agent/Agent.cpp:577-608 | the numbering loop gathers exactly the names of the page, each with a comma |
| InfoSources.InfoSource.TreatListPage | Agent/Agent.cpp:548-616 | the answer lists the names whose numbers fall on the page, or reports an invalid page |
| RuleStore.ReadsBack | Agent/InfoSource.h:594-685 | the text of a list of rules is read back as its lines |
| RuleStore.HasRefines | Agent/InfoSource.h:617-620 | on such a file the prefix test finds a name exactly when the map has it |
| RuleStore.ArgumentsArise | Agent/Agent.cpp:250-253 | the arguments of commands are one line with any number of newlines in front |
| RuleStore.AddRefines | Agent/InfoSource.h:643-682 | an addition with a bar leaves the text of distinct well-formed rules exactly when its argument has no newline in front, and is then the insertion into the ordered map |
| RuleStore.LeadingNewlineBreaks | Agent/InfoSource.h:617-682 | with a newline in front the file gets a blank line and the rule even if its name is there, and showing crashes exactly for names not in front of the blank line |
| RuleStore.DuplicateName | Agent/InfoSource.h:617-682 | an input that puts two rules of one name into the file |
| RuleStore.RemoveRefines | Agent/Agent.cpp:371-414 | removing is the deletion from the map |
| RuleStore.DeleteByName | Agent/Agent.cpp:383-385 | an argument without a bar deletes exactly the rule of that name |
| RuleStore.RemoveIsExact | Agent/Agent.cpp:383-385 | for every argument a command can have: it deletes exactly the rule of that name from every file if and only if it is not empty, and has no bar unless it starts with a newline or leaves no room for a bar behind it |
| RuleStore.ShowRefines | Agent/Agent.cpp:660-692 | showing is the lookup in the map |
| RuleStore.ShowTells | Agent/Agent.cpp:676-697 | a rule with an empty template, and no other rule, answers like a missing one |
| RuleStore.RunRefines | Agent/Agent.cpp:274-451 | over any sequence of additions and removals the file stays, behind every command, the newline-joined text of well-formed rules with distinct names exactly when no addition with a bar has a newline in front; the rules are then what the map operations give |
| RuleStore.RunFromEmpty | Agent/Agent.cpp:274-451 | the same from an empty file |
| RuleStore.DuplicateIsHarmless | Agent/Agent.cpp:274-451 | delivering the same command twice in a row leaves the file of a single delivery, for every way the reads can go, exactly when it is not an addition with a newline in front |
| RuleStore.RemoveUndoesAdd | Agent/Agent.cpp:331-451 | removing undoes an addition that succeeded exactly when the name is not empty and has no newline in front |
| RulePages.PageReplyIs | Agent/Agent.cpp:548-613 | a page of any file answers the first ten names of the well-formed lines behind ten lines for each page in front, joined by commas, or is invalid |
| RulePages.PageCountIs | Agent/Agent.cpp:501-527 | the announced number of pages is the least with room for all well-formed lines of any file, ten a page |
| RulePages.ListingIsExact | Agent/Agent.cpp:501-613 | the announced pages of a file with distinct names list every name once and in order exactly when all lines in front of the last page are well formed |
| RulePages.BlankLineRepeats | Agent/Agent.cpp:577-608 | with a blank line in front of eleven rules the second page repeats the last name of the first |
| RulePages.PagesListAll | Agent/Agent.cpp:501-613 | on a rule list the pages from 1 to the announced number list all names once and in order, all but the last with ten names, and every later page is invalid |
| Conditions.ParseConditions | Server/ClientDispatcher.cpp:263-327 | the token loop returns the list, or the first problem, that the grammar assigns to the text; it finds no conditions exactly in a text of quotes only, and never returns an empty list |
| Conditions.NextToken | Server/ClientDispatcher.cpp:272-320 | the scan from quote to quote yields the token, and the rest, that `strtok` gives |
| Conditions.ScanOperator | Server/ClientDispatcher.cpp:279-302 | the operator found is the first character of its kind, and no kind of higher precedence occurs anywhere in the text; none is found exactly in a text without operator characters |
| Conditions.OperatorIs | Server/ClientDispatcher.cpp:279-302 | an operator that is first of its kind, with none of higher precedence anywhere, is the one the grammar assigns |
| Conditions.NoConditionsIs | Server/ClientDispatcher.cpp:324-327 | a text is refused for having no conditions exactly when it consists of quotes only |
| Conditions.BadCondition | Server/ClientDispatcher.cpp:279-312 | a condition without an operator, and one with the operator in front, are refused as such, whatever follows |
| Conditions.MissingValueIs | Server/ClientDispatcher.cpp:313-320 | a condition with nothing but quotes behind it is refused for its missing value |
| Conditions.ConditionIs | Server/ClientDispatcher.cpp:272-322 | a condition with name, operator and value is the first of the list, and the text behind it gives the rest |
| Conditions.Precedence | Server/ClientDispatcher.cpp:279-302 | which operator decides when several characters occur |
| Conditions.ConditionsRoundTrip | Server/ClientDispatcher.cpp:263-327 | printed conditions, with or without a leading ampersand, are parsed back as the same list |
| Conditions.AppendParses | Client/Client.cpp:212 | text appended to accepted conditions that end with a quote is parsed on its own, and the lists are concatenated |
| Conditions.AppendBreaks | Client/Client.cpp:212 | accepted conditions that end inside a value are refused once a date condition is appended |
| RecordMatch.OperatorsPartition | Server/ClientDispatcher.cpp:498-552 | for numbers and for texts exactly one of below, equal and above holds, and unequal is the opposite of equal |
| RecordMatch.NumbersCompare | Server/ClientDispatcher.cpp:498-524 | comparing written numbers, negative ones included, compares the numbers |
| RecordMatch.TextsCompare | Server/ClientDispatcher.cpp:525-551 | comparing texts goes by the first position where they differ |
| RecordMatch.ExtensionsCompare | Server/ClientDispatcher.cpp:538-550 | a value that goes on behind the text asked for is above it, one that the text goes on from is below it |
| RecordMatch.Compare | Server/ClientDispatcher.cpp:498-552 | the two switches, on `atoi` and on the sign of `strcmp`, decide the operator |
| RecordMatch.CompareAt | Server/ClientDispatcher.cpp:495-554 | the comparison reads exactly the value up to its quote, and the temporary NUL is undone |
| RecordMatch.NoAdjacentHit | Server/ClientDispatcher.cpp:554-557 | the position skipped after a comparison that fails cannot be a hit |
| RecordMatch.TryAt | Server/ClientDispatcher.cpp:481-556 | one occurrence of the name is classified: a hit, a refused comparison, a value without end, or no field at all |
| RecordMatch.SearchArgument | Server/ClientDispatcher.cpp:479-558 | on any text, the loop accepts exactly when some position is a hit, and leaves the buffer as it was |
| RecordMatch.HitColumns | Server/ClientDispatcher.cpp:479-497 | where the value and the word number of a hit stand, counted in characters |
| RecordMatch.RuleColumns | Server/ClientDispatcher.cpp:426-446 | where the rule name stands, and when it is inside the record |
| RecordMatch.MatchCondition | Server/ClientDispatcher.cpp:424-563 | one condition on any text, on the rule name or on arguments, with the buffer unchanged; the answer is open only when the value would stand behind the record |
| RecordMatch.MatchAll | Server/ClientDispatcher.cpp:424-567 | all conditions, up to the first that fails, within the same bounds and with the buffer unchanged |
| RecordQueries.NumberAtArg | Server/ClientDispatcher.cpp:496-497 | the backward look for the word number succeeds exactly on a number argument whose whole name was asked for |
| RecordQueries.HitsMeans | Server/ClientDispatcher.cpp:479-558 | on any record an agent prints, a hit exists exactly when some argument whose name ends with the condition's name satisfies it |
| RecordQueries.RuleHitMeans | Server/ClientDispatcher.cpp:426-478 | a condition on the rule compares the rule name of the record |
| RecordQueries.HoldsMeans | Server/ClientDispatcher.cpp:424-563 | the buffer search agrees with the meaning of the condition on rule name and arguments |
| CountQuery.Refill | Server/ClientDispatcher.cpp:384-400 | reading behind the carried text leaves the first 1024 bytes of all remaining data in the buffer |
| CountQuery.Split | Server/ClientDispatcher.cpp:404-418 | the record at the front is terminated in place and the text behind it stays reachable |
| CountQuery.CountRecords | Server/ClientDispatcher.cpp:380-572 | the loop counts the accepted records among exactly those that the splitter visits; on any file the count is at least those and at most the ones that are accepted or end inside a field opening |
| CountQuery.ScanVisits | Server/ClientDispatcher.cpp:380-418 | which records of a separated file are visited, for every length of every record |
| CountQuery.SplitterCases | Server/ClientDispatcher.cpp:404-418 | what the loop does behind a record: the end, a comma, a comma and a newline, or anything else |
| CountQuery.ScanIsExact | Server/ClientDispatcher.cpp:380-418 | all records are visited, once and in order, exactly when all but the last have at most 1021 characters and the last at most 1024 |
| LogQueries.QueryCounts | Server/ClientDispatcher.cpp:380-572 | on the file of storable entries the loop counts the entries that meet all conditions |
| LogQueries.OrderIrrelevant | Server/ClientDispatcher.cpp:424-563 | on any file, a query counts the same for the same conditions in any order |
| LogQueries.NoConditionsRefused | Server/ClientDispatcher.cpp:324-327 | a query whose conditions are quotes only is answered with a refusal on any file |
| LogQueries.RunQuery | Server/ClientDispatcher.cpp:240-579 | parsing and counting together answer a number exactly when the conditions are accepted; on a searchable file the number of accepted records, on any other a number between what is certain and what is possible |
| Graph.BoundaryStep | Client/Client.cpp:281-284 | one turn of the carry loop goes from one closed-form boundary and remainder to the next |
| Graph.Widths | Client/Client.cpp:281 | every sample is the whole quotient wide, or one second more |
| Graph.LastBoundary | Client/Client.cpp:277-284 | the last boundary is the end of the range, or one second in front of it when the range does not divide evenly |
| Graph.SampleQueries | Client/Client.cpp:296-308 | the two query texts of a sample, in full |
| Graph.PrepareQueries | Client/Client.cpp:277-322 | the loop prints, for each sample, the open interval between its closed-form boundaries and its first point |
| Graph.Collect | Client/Client.cpp:326-341 | on any file each cell ends with the sum of its two answers, with -10 in place of all before a refusal; an error is reported exactly when some query is refused |
| Graph.WidGraph | Client/Client.cpp:247-341 | the earlier time starts the range, and every cell shows its sample's count |
| GraphLaws.PairCounts | Client/Client.cpp:296-308 | the open interval and its first point together count the half-open interval |
| GraphLaws.RangesAdd | Client/Client.cpp:326-341 | neighbouring ranges are disjoint and their counts add up |
| GraphLaws.AppendedParses | Client/Client.cpp:207-214 | the user's conditions and the printed date conditions are parsed as one list |
| GraphLaws.SampleIsRange | Client/Client.cpp:277-341 | a sample of at least one second counts exactly the entries from its first boundary on and in front of its second |
| GraphLaws.LoggedSecond | Client/Client.cpp:286-296 | an entry captured from a line with a date of the calendar carries the text that the client prints for the second of that date |
| GraphLaws.SampleCountsItsSeconds | Client/Client.cpp:277-341 | a sample of at least one second counts exactly the lines whose date falls on its own seconds |
| GraphLaws.WideEnoughConserves | Client/Client.cpp:277-341 | with a second per sample the samples sum to the count over the covered range |
| GraphLaws.TooNarrowFails | Client/Client.cpp:277-341 | on a shorter range a single entry at its start that meets the conditions is counted too often, or outside the range |
| GraphLaws.ConservationIsExact | Client/Client.cpp:277-341 | the samples sum to the count over the covered range, for every log and all conditions, exactly when the range has a second per sample |
| GraphLaws.OpenConditionsRefused | Client/Client.cpp:212-217 | with conditions that end inside a value, every sample shows the error mark |
| Framing.BufferChangeEndian | common_definitions.h:35-44 | on a little-endian host the first bytes are reversed in place, byte by byte, elsewhere nothing changes |
| Framing.RecvFixedLength | common_definitions.h:46-73 | for any fragmentation the wanted bytes arrive, in host order; for any number of errors before the end, failure is reported exactly when bytes are missing and there are no more errors than bytes |
| Framing.RecvVarmsg | common_definitions.h:75-90 | on either kind of host the message at the front of the stream arrives as it was sent, and the stream moves behind it, in any buffer that the announced length fits |
| Framing.SendVarmsg | common_definitions.h:92-105 | on either kind of host the same bytes are sent: the length in two bytes, the higher one first, then the message |
| Framing.FramesRoundTrip | common_definitions.h:75-105 | any sequence of nonempty messages is received as the same sequence, however the stream ends behind it |
| Framing.ReceiveAll | Server/Agent.h:194-205 | the receiving loop yields what the stream holds for every fragmentation and any number of errors at its end |
| Framing.ResetInsideMessage | common_definitions.h:48-65 | what is delivered for every proper prefix of a frame and every number of errors behind it |
| Framing.ReversalsCancel | Agent/Agent.cpp:231-233 | the reversals of sender and receiver cancel exactly for hosts of the same endianness, or for palindromes |
| Requests.Registry.Get | Server/ag_cl_common.h:15-27 | the first request of that thread id, if any |
| Requests.Registry.Register | Server/ag_cl_common.h:31-35 | the request goes to the end of the list |
| Requests.Registry.Unregister | Server/ag_cl_common.h:37-41 | all occurrences of the request leave the list and the rest keeps its order |
| Requests.PackUnpacks | Server/Agent.h:43-57 | a packed message is one byte of type, eight of thread id and the text, and they are recovered from it |
| Agents.Treat | Agent/Agent.cpp:219-242 | the one acknowledgement sent for a command carries the id read from it, also from a command that is too short; none is sent for a command that crashes the agent |
| Agents.Serve | Agent/Agent.cpp:754-782 | the bytes sent by the command loop are the acknowledgements for the commands received, one each and in order, up to the first restart or in front of the first crash |
| Agents.AnsweredInOrder | Agent/Agent.cpp:709-721 | the server reads one acknowledgement for each command it sent, up to the first restart or in front of the first crash, in order: the letter a, the id and the response of that command |
| Requests.RegistryAlwaysExact | Server/ClientDispatcher.cpp:616-644 | in every reachable state the registry holds each waiting worker once and nobody else, and messages in flight carry the id of their worker |
| Requests.MessagesConserved | Server/Agent.h:109-122 | over every run, commands sent are in flight or handled, acknowledgements in flight or looked up, and texts written had been looked up |
| Requests.AnswersReachTheirWorker | Server/Agent.h:109-122 | over all interleavings, look-up and write being two steps, a buffer holds nothing or the answer to its worker's own command, if no id is taken that a command, a text in flight or a text about to be written carries |
| Requests.AnswerArrives | Server/Agent.h:114-117 | while its worker waits, an acknowledgement that is looked up and written arrives in the buffer of that worker |
| Requests.LateAckIsDropped | Server/Agent.h:115-121 | an acknowledgement looked up after its worker has left leads to no write |
| Requests.ReuseIsExact | Server/Agent.h:109-122 | from every state reached without reuse in flight, an id can be taken again with all further runs delivering own answers only exactly when no command, no acknowledgement with a text and no pending write of a text still carries it |
| Requests.WriteAfterLeave | Server/Agent.h:114-117 | an answer that has been looked up is written to the buffer of a worker that has left meanwhile |
| Requests.ReuseMisdelivers | Server/Agent.h:114-117 | a run from the start in which a reused id brings a worker the answer to another worker's command |
| Requests.PendingWriteMisdelivers | Server/Agent.h:114-117 | a run with nothing in flight in which an answer looked up before its worker left is written to the next thread with its id |
| Pipeline.Monitor | Agent/InfoSource.h:687-714 | the bytes sent are the frames of the records of the buffers whose line some rule matches, in order |
| Pipeline.SharedFiles | Agent/InfoSource.h:127-141 | two paths give the same file names exactly when they differ in slashes and underscores only |
| Pipeline.LogStore.Append | Server/Agent.h:207-233 | a record goes to the end of the file named in front of the first tab, behind a separator if that file exists, and all other files stay as they are |
| Pipeline.LogStore.Listen | Server/Agent.h:185-240 | after all messages of all sources, however the connection ends behind them, each file is the separated text of the entries of the sources that share it; with hosts of different endianness only files with turned-round names exist |
| Pipeline.EndToEnd | Server/ClientDispatcher.cpp:240-579 | the answer to a query is the number of log lines whose selected rule and arguments meet all its conditions; between hosts of different endianness it is always a failure |
| Pipeline.AnswerGiven | Server/ClientDispatcher.cpp:371-377 | there is no answer exactly when the query is refused, or no rule yields a record for any line and no file exists |
| Pipeline.QueryOnBareLines | Agent/InfoSource.h:93-113 | that number depends on the lines only, and not on how much was read ahead, unless text read ahead goes on like a timestamp |
| Pipeline.CountsLines | Agent/InfoSource.h:165-566 | counting stored entries is counting the lines they came from |

## Left out

- HasRule: says for names with newlines only within which bounds the answer lies; which one it is depends on how
  the reads happen to be cut.
- AddRule: gives the same bounds for such names.
- TreatAdd: gives the same bounds for such names.
- MatchCondition: leaves the answer open where the value would stand behind the record in memory.
- MatchAll: gives bounds on such records.
- CountRecords: gives bounds instead of a number for files in which some visited record ends inside the field
  opening of its first "rule"; the source then compares whatever stands behind the record in memory. No agent
  writes such records.
- RunQuery: gives the same bounds; the agent name, the path and the log directory of a query are not parsed.
- EndToEnd: the path has no tab and fits its buffer, no captured value contains the closing pair, and every record
  fits the query buffer; between hosts of different endianness the path does not start with a closing brace.
- WidGraph: needs at least one sample; with none the source reads an array without elements.
- RecvVarmsg: the announced length fits the buffer. The source passes buffers of 1025 bytes and does not compare
  the length with them.
- Serve: heartbeats in between are not modelled, and the branches of the command switch are one function from
  commands to responses or a crash.
- Listen: the files of one agent; other agents have directories of their own. What a message filled up with zeros
  does to the files is left out.
- `atoi` on values too large for an `int`, and more than 100 conditions in a query: values and the list of
  conditions are unbounded.
- Writes behind the end of the fixed message buffers: texts are unbounded, except where the size limits the
  reads.
- Read and write errors of local files, and the process that renames the new rule file.
- Choosing the source of a command by its path, and paths that start with a newline.
- Log tailing (`read_entry`), which shifts its buffer in the wrong direction (Agent/InfoSource.h:86).
- Sockets, threads, timeouts, login, the transfer handshake, agent lists, and the client's user interface.
