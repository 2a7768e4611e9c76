# WinCron scheduling core in Dafny

This project models the scheduling engine of WinCron, a minute-granularity
job scheduler for Windows, in Dafny. It covers:

- the rule-line constructor of `CronJob`;
- the quote-aware command tokenizer `CommandParser.Parse`;
- the time-field matcher (`GetValueTypeFromString`, `CanRun`, `WithinRange`,
  `InList`);
- the due-ness check (`MakeRunClearanceList`, `ShouldRun`);
- the job table `CronTab`.

Every `int.Parse` in the matcher can throw, so matching returns a
`Result<bool, FieldError>`. The constructor's `ArgumentException` is a
`Result<Job, JobError>`. A `null` job is `None`.

Modules, leaf first:

- `Wrappers` (`wrappers.dfy`): `Option` and `Result`.
- `Text` (`text.dfy`): the .NET string operations the engine relies on.
  This covers `String.Split(char)`, which keeps empty pieces, and
  `String.Join`. It also covers `String.Trim()`, with the exact
  `Char.IsWhiteSpace` set.
- `Int32Text` (`int32text.dfy`): `int.Parse` with the default
  `NumberStyles.Integer`. Blanks U+0009..U+000D and space may surround the
  number, and one `+` or `-` may precede it. The digits are ASCII and the
  value must fit in 32 bits.
- `Commands` (`commands.dfy`): `CommandParser.Parse`, both as a loop and as
  a fold.
- `TimeFields` (`timefields.dfy`): field classification and matching.
- `Jobs` (`jobs.dfy`): the `CronJob` constructor, `MakeRunClearanceList`,
  `ShouldRun`, and the start information `ExecuteJob` passes to the process.
- `JobTable` (`jobtable.dfy`): the `CronTab` class.

Behaviour this model follows from the code:

- Classification goes by characters, in this order: a `,` makes a list,
  then a `-` makes a range, then a `*` makes a wildcard, and anything else
  is a number. So `"*5"` is a wildcard, and the negative number `"-5"` is a
  range whose lower end is empty, which is a parse error.
- A range uses only the first two `-` pieces. Its test `v >= lo && v <= hi`
  short-circuits, so the upper end is parsed only when `v >= lo`.
- A list is scanned left to right. It is true at the first hit, and an
  unparsable element is an error only when it comes before any hit.
- `MakeRunClearanceList` evaluates all five fields before `ShouldRun` looks
  at any verdict. An error in any field is therefore an error of the whole
  check.
- The constructor splits the trimmed line at every single space. It
  rejects the line only when there are fewer than six pieces; it does not
  validate the time fields.

## Model

| member | source | states |
|---|---|---|
| Text.Split | WinCron/CronJob.cs:26 | `Split(' ')` keeps empty pieces: one piece more than there are separators, and no piece contains the separator |
| Text.Trim | WinCron/CronJob.cs:26 | `Trim()` gives a contiguous piece of the line. Everything cut away is `Char.IsWhiteSpace`, and the result neither starts nor ends with white space |
| Text.JoinSplit | WinCron/CronJob.cs:26-29 | joining the pieces of a split with the separator restores the split string |
| Text.SplitJoinThen | WinCron/CronJob.cs:26-29 | splitting separator-free parts, joined and followed by a tail, gives those parts followed by the pieces of the tail |
| Int32Text.ParseInt32 | WinCron/CronJob.cs:142 | a value `int.Parse` accepts lies in the 32-bit range, and the accepted text holds a digit (so `""` and `"*"` are errors) |
| Int32Text.ParseShowInt | WinCron/CronJob.cs:142 | round trip: `int.Parse` reads back the decimal rendering of every 32-bit integer |
| Commands.ScanInvariant | WinCron/CronJob.cs:253-281 | loop invariant of the character loop: the finished parts plus the pending token rebuild the text read, the quote flag is the parity of the `"` seen, and one part is finished per unquoted space |
| Commands.ScanPartsEndUnquoted | WinCron/CronJob.cs:266-270 | loop invariant: every finished part was ended by a space outside quotes, since the parts up to it rebuild a text with an even number of `"` |
| Commands.Tokenize | WinCron/CronJob.cs:249-284 | the tokens are never empty, and joined with single spaces they give back the input exactly (quotes kept). Every joining space lies outside quotes, and there is one more token than there are spaces outside quotes. So a space inside quotes never splits a token, and the splits are fixed |
| Commands.Parse | WinCron/CronJob.cs:249-284 | the loop as written returns exactly those tokens, so it is never empty and re-joins to its input |
| Commands.NoQuotesIsSplit | WinCron/CronJob.cs:249-284 | with no `"` in it, a command string tokenizes exactly as `Split(' ')` splits it |
| Commands.QuotedArgumentStaysWhole | WinCron/CronJob.cs:259-275 | a quoted argument is one token, with its quotes, however many spaces it holds |
| Commands.QuotedArgumentExample | WinCron/CronJob.cs:249-284 | `echo "hello world" foo` gives `echo`, `"hello world"`, `foo` |
| TimeFields.Classify | WinCron/CronJob.cs:189-195 | precedence: List exactly when the field has a `,`; Range exactly when it has a `-` and no `,`; Wildcard exactly when it has a `*` and neither; Number otherwise |
| TimeFields.InList | WinCron/CronJob.cs:160-168 | a list failure names one of the field's `,` pieces, and one that `int.Parse` rejects |
| TimeFields.CanRun | WinCron/CronJob.cs:132-152 | a wildcard field matches every value and never fails. Any failure names text that `int.Parse` rejects and that is the field itself or one of its `-` or `,` pieces, so the fall-through exception is unreachable |
| TimeFields.NumberFieldMatches | WinCron/CronJob.cs:140-142 | a number field matches `v` exactly when it parses to `v`, and it is an error (not false) exactly when it does not parse |
| TimeFields.NumberMatches | WinCron/CronJob.cs:140-142 | the field `"n"` matches `v` exactly when `v == n` |
| TimeFields.WithinRange | WinCron/CronJob.cs:177-181 | true exactly when both ends parse and `lo <= v <= hi`. It is an error exactly when the lower end does not parse, or when `v >= lo` and the upper end does not parse. The error names the end that failed |
| TimeFields.RangeEndsOf | WinCron/CronJob.cs:179-180 | the ends of `a-b`, followed by nothing or by more `-` pieces, are `a` and `b`: pieces after the second `-` are ignored |
| TimeFields.RangeMatches | WinCron/CronJob.cs:177-181 | the field `"lo-hi"`, with any `-` tail, matches `v` exactly when `lo <= v <= hi`, inclusive at both ends |
| TimeFields.RangeShortCircuit | WinCron/CronJob.cs:180 | below the lower end a range is false without its upper end being read, so `"lo-junk"` is no error for `v < lo` |
| TimeFields.NegativeNumberIsError | WinCron/CronJob.cs:177-181 | a negative number such as `"-5"` is taken for a range with an empty lower end and is always a parse error |
| TimeFields.ScanList | WinCron/CronJob.cs:160-168 | a list failure names an element of the list that `int.Parse` rejects |
| TimeFields.ScanListHit | WinCron/CronJob.cs:160-168 | a list is true exactly when some element parses to `v` and every element before it parses to another value |
| TimeFields.ScanListMiss | WinCron/CronJob.cs:160-168 | a list is false exactly when every element parses and none equals `v` |
| TimeFields.ScanListError | WinCron/CronJob.cs:160-168 | a list is an error exactly when some element does not parse and every element before it parses to a value other than `v`. An unparsable element after a hit is never read |
| TimeFields.ListMatches | WinCron/CronJob.cs:146-148 | the field `"n1,n2,..."` matches `v` exactly when `v` is one of the `ni` |
| TimeFields.ListWithUnparsableElement | WinCron/CronJob.cs:163-166 | `"n,bad"` is a hit for `v == n` and an error for every other value |
| TimeFields.DigitsThenDashRejected | WinCron/CronJob.cs:165 | `int.Parse` rejects digits followed by a dash, so a list element such as `3-5` is never a range |
| TimeFields.ListWithRangeElement | WinCron/CronJob.cs:160-168 | a list such as `"1,3-5"` matches its number and is a parse error for every other value, values inside `3-5` included |
| Jobs.ParseJob | WinCron/CronJob.cs:24-36 | the constructor with line 33 corrected (see Findings). A line is rejected exactly when its trimmed text has fewer than five spaces. Otherwise the five space-free fields and the command string rebuild the trimmed line, and program and arguments are exactly the tokens of the command string, one argument per unquoted space |
| Jobs.ParseRenderedJob | WinCron/CronJob.cs:26-29 | round trip: five space-free fields and a command string, written as a trimmed line, parse back to exactly those fields and that command string |
| Jobs.ParseOneArgumentRule | WinCron/CronJob.cs:24-36 | under the constructor with line 33 corrected (see Findings), a line with a program and one plain argument parses into its fields, that program and that argument |
| Jobs.Verdicts | WinCron/CronJob.cs:97 | defined as `CanRun` of field `i` against `now.At(i)` (minute, hour, day, month, day of week). Ensures: there are five verdicts, a wildcard field's verdict is true, and a field's exception names text of that same field that `int.Parse` rejects |
| Jobs.Clearance | WinCron/CronJob.cs:114-124 | succeeds exactly when every field's `CanRun` succeeds, and then entry `i` is field `i`'s verdict. A failure is the exception of the first field that throws |
| Jobs.FirstErrorPropagates | WinCron/CronJob.cs:114-124 | when field `k` throws and every earlier field succeeds, the check fails with field `k`'s exception, whatever the later fields say |
| Jobs.Due | WinCron/CronJob.cs:93-106 | from the verdicts: due exactly when all are true, an error exactly when any field threw, and false exactly when none threw and one is false |
| Jobs.ShouldRun | WinCron/CronJob.cs:93-106 | due exactly when all five fields match their values of now. An error exactly when any field is an error, with no cross-field short circuit. False exactly when no field errs and some field refuses |
| Jobs.DueOfVerdicts | WinCron/CronJob.cs:99-105 | five successful verdicts give due exactly when all five are true |
| Jobs.EveryMinuteIsDue | WinCron/CronJob.cs:93-106 | `* * * * *` is due at every instant |
| Jobs.DateRuleIsDue | WinCron/CronJob.cs:93-106 | a rule with numbers for minute, hour, day and month and `*` for day of week (such as `0 0 1 1 *`) is due exactly at that minute of that day, on any weekday |
| Jobs.LaterErrorIsNotMasked | WinCron/CronJob.cs:114-124 | a rule `n * * * x` with an unparsable day of week (such as `5 * * * x`) fails with that field's exception, even at minutes other than `n` |
| Jobs.WildcardRuleAlwaysDue | WinCron/CronJob.cs:93-106 | under the constructor with line 33 corrected (see Findings), a rule such as `* * * * * echo hi` parses into program `echo` and argument `hi`, and is due at every instant |
| Jobs.StartInfoOf | WinCron/CronJob.cs:49-50 | the file name is the job's command. No arguments give an empty argument string; otherwise file name, a space and argument string are the command and the arguments joined with single spaces |
| Jobs.StartInfoRebuildsCommand | WinCron/CronJob.cs:49-50 | under the constructor with line 33 corrected (see Findings), the process started for a parsed job gets a file name and argument string that, joined by a space, are the rule's command string |
| Jobs.ParseJobAsWritten | WinCron/CronJob.cs:33 | as written, an accepted line's command is the iterator type name from `Take(1).ToString()`, and the fields and arguments are as in `ParseJob` |
| Jobs.AsWrittenCommandIgnoresLine | WinCron/CronJob.cs:33 | as written, every accepted line gets the same command |
| Jobs.AsWrittenStartsWrongProgram | WinCron/CronJob.cs:33 | as written, `* * * * * echo hi` starts a program other than `echo`; corrected, it starts `echo` with argument `hi` |
| JobTable.CronTab.constructor | WinCron/CronTab.cs:21-24 | a new tab holds no jobs |
| JobTable.CronTab.AddJob | WinCron/CronTab.cs:31-37 | a null job leaves the jobs unchanged; any other job is appended at the end, with earlier jobs and their order kept |
| JobTable.CronTab.Clear | WinCron/CronTab.cs:42-45 | afterwards the tab holds no jobs |
| JobTable.CronTab.GetJobs | WinCron/CronTab.cs:51-54 | returns the current jobs and changes nothing |
| JobTable.SnapshotSurvivesChanges | WinCron/CronTab.cs:51-54 | a snapshot taken before `AddJob` and `Clear` still holds the jobs of the moment it was taken |

## Left out

- `ExecuteJob` (both overloads, `CronJob.cs:41-83`) starts a process, waits for it, reads its output and writes to the event log under a lock. This is I/O. Only the file name and argument string it sets are modelled, in `Jobs.StartInfoOf`.
- The conversion of a `DateTime` to five integers (`CronJob.cs:97`) is a library call. `ShouldRun` takes the five integers as an `Instant`.
- `CommandLine.cs`, `WinCron.cs` and `CronInstaller.cs` are host plumbing: installer dispatch, a message box, and service start and stop that only write log lines. They are not part of this model.
- No dispatch loop, tick timer, pause/resume, in-flight execution tracking or file loader exists in the modelled source, so none is modelled.
- `CronTab` has no locking. It is modelled as a sequential object, and its `[Serializable]` attribute is ignored.
- Int32Text.ParseInt32: trailing NUL characters, which .NET accepts after a number, are rejected here. Culture-specific sign symbols are not modelled. `FormatException` and `OverflowException` are one error.
- Jobs.WildcardRuleAlwaysDue: shown for rules whose command is a program with one plain argument, not for every command string.

Behaviour of the code a reader might not expect:

- Fields are not validated when a job is constructed; malformed fields surface when `ShouldRun` runs.
- Ranges short-circuit on their lower end.
- All five fields are evaluated before the conjunction is taken.
- Tokens are split at single spaces, so two spaces in a row make an empty field.

## Findings

| source | as written | input that shows it | evidently intended | confidence | as-written member | corrected member |
|---|---|---|---|---|---|---|
| WinCron/CronJob.cs:33 | `command` is set to `ToString()` of the enumerable returned by `Take(1)`, which is that iterator's type name | the rule `* * * * * echo hi` | `command` is the first token, `echo` | high; not executed | Jobs.ParseJobAsWritten | Jobs.ParseJob |

`Jobs.AsWrittenStartsWrongProgram` exhibits the discrepancy. The as-written
job would start a program named after a `System.Linq` type. The corrected
job starts `echo` with the argument `hi`. `Jobs.StartInfoRebuildsCommand`
proves that the corrected file name and arguments always rebuild the rule's
command string.
