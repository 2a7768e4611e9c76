/**
 * `CronJob`: one rule line of the cron file parsed into its five time
 * fields and its command, and the check whether the job is due at a given
 * instant.
 */
module Jobs {
  import opened Wrappers
  import opened Text
  import opened Int32Text
  import opened Commands
  import opened TimeFields

  /** The time fields of a rule: minute, hour, day of month, month, day of week. */
  type TimeParts = s: seq<string> | |s| == 5 witness ["*", "*", "*", "*", "*"]

  /**
   * A parsed rule. `commandString` is the rule line after its fifth space,
   * `command` the program to start and `commandArgs` its arguments.
   */
  datatype Job = Job(timeParts: TimeParts, commandString: string, command: string, commandArgs: seq<string>)

  /** The `ArgumentException` the constructor throws for a short line. */
  datatype JobError = InvalidLine

  /**
   * The `CronJob(string)` constructor with its line 33 corrected, so that
   * `command` is the first token of the command string; the line as
   * written is `ParseJobAsWritten`. The trimmed line is split at every
   * single space; fewer than six pieces is an error. The first five pieces
   * are the time fields and the rest, joined again with single spaces, is
   * the command string, which the command tokenizer splits into the
   * program and its arguments. So a line is accepted exactly when its
   * trimmed text has at least five spaces, the fields and the command
   * string rebuild that text, no field holds a space, and program and
   * arguments are the tokens of the command string.
   */
  function ParseJob(line: string): (r: Result<Job, JobError>)
    ensures r.Failure? <==> Occurrences(Trim(line), ' ') < 5
    ensures r.Success? ==> Join(r.value.timeParts, " ") + " " + r.value.commandString == Trim(line)
    ensures r.Success? ==> forall i :: 0 <= i < 5 ==> ' ' !in r.value.timeParts[i]
    ensures r.Success? ==> Join([r.value.command] + r.value.commandArgs, " ") == r.value.commandString
    ensures r.Success? ==> |r.value.commandArgs| == UnquotedSpaces(r.value.commandString)
    ensures r.Success? ==> [r.value.command] + r.value.commandArgs == Tokenize(r.value.commandString)
  {
    var t := Trim(line);
    var parts := Split(t, ' ');
    if |parts| < 6 then Failure(InvalidLine)
    else
      var fields, commandString := parts[..5], Join(parts[5..], " ");
      var commandParts := Tokenize(commandString);
      assert Join(fields, " ") + " " + commandString == t by {
        JoinSplit(t, ' ');
        assert parts == fields + parts[5..];
        JoinAppend(fields, parts[5..], " ");
      }
      assert forall i :: 0 <= i < 5 ==> fields[i] == parts[i];
      assert commandParts == [commandParts[0]] + commandParts[1..];
      Success(Job(fields, commandString, commandParts[0], commandParts[1..]))
  }

  /**
   * Round trip: five space-free fields and a command string, written as a
   * rule line without surrounding white space, parse back to exactly those
   * fields and that command string.
   */
  lemma ParseRenderedJob(line: string, fields: TimeParts, commandString: string)
    requires forall i :: 0 <= i < 5 ==> ' ' !in fields[i]
    requires line == Join(fields, " ") + " " + commandString && Trim(line) == line
    ensures var tokens := Tokenize(commandString);
            ParseJob(line) == Success(Job(fields, commandString, tokens[0], tokens[1..]))
  {
    SplitJoinThen(fields, ' ', commandString);
    var parts := Split(line, ' ');
    assert parts[..5] == fields;
    assert parts[5..] == Split(commandString, ' ');
    JoinSplit(commandString, ' ');
  }

  /**
   * The values of "now" compared with the fields, in field order: minute,
   * hour, day of month, month and day of week (0 is Sunday).
   */
  datatype Instant = Instant(minute: int, hour: int, day: int, month: int, dayOfWeek: int)
  {
    /** The value compared with time field `i`. */
    function At(i: nat): int
      requires i < 5
    {
      if i == 0 then minute else if i == 1 then hour else if i == 2 then day
      else if i == 3 then month else dayOfWeek
    }
  }

  /** The verdict of one field: `CanRun(field, value)`, true, false or the exception it throws. */
  type Verdict = Result<bool, FieldError>

  /**
   * `CanRun` of each time field of `job` against its value of `now`, in
   * field order. A wildcard field's verdict is true, and a field's
   * exception names a piece of that same field which `int.Parse` rejects.
   */
  function Verdicts(job: Job, now: Instant): (vs: seq<Verdict>)
    ensures |vs| == 5
    ensures forall i :: 0 <= i < 5 ==> (Classify(job.timeParts[i]) == Wildcard ==> vs[i] == Success(true))
    ensures forall i :: 0 <= i < 5 ==>
              (vs[i].Failure? ==> ParseInt32(vs[i].error.text).None? && PieceOf(vs[i].error.text, job.timeParts[i]))
  {
    seq(5, i requires 0 <= i < 5 => CanRun(job.timeParts[i], now.At(i)))
  }

  /**
   * `MakeRunClearanceList`: goes through the verdicts in field order. The
   * first exception ends the loop and propagates; otherwise the list holds
   * each field's verdict.
   */
  function Clearance(verdicts: seq<Verdict>): (r: Result<seq<bool>, FieldError>)
    ensures r.Success? <==> forall i :: 0 <= i < |verdicts| ==> verdicts[i].Success?
    ensures r.Success? ==> |r.value| == |verdicts|
    ensures r.Success? ==> forall i :: 0 <= i < |verdicts| ==> verdicts[i] == Success(r.value[i])
    ensures r.Failure? ==> exists k :: 0 <= k < |verdicts| && verdicts[k] == Failure(r.error)
                                       && forall i :: 0 <= i < k ==> verdicts[i].Success?
  {
    if |verdicts| == 0 then Success([])
    else
      match verdicts[0]
      case Failure(e) => Failure(e)
      case Success(b) =>
        var rest := Clearance(verdicts[1..]);
        assert forall i :: 1 <= i < |verdicts| ==> verdicts[i] == verdicts[1..][i - 1];
        match rest
        case Failure(e) =>
          assert exists k :: 0 <= k < |verdicts| && verdicts[k] == Failure(e)
                             && forall i :: 0 <= i < k ==> verdicts[i].Success? by {
            var j :| 0 <= j < |verdicts| - 1 && verdicts[1..][j] == Failure(e)
                     && forall i :: 0 <= i < j ==> verdicts[1..][i].Success?;
            assert verdicts[j + 1] == Failure(e);
          }
          Failure(e)
        case Success(bs) =>
          var r := [b] + bs;
          assert forall i :: 0 <= i < |verdicts| ==> verdicts[i] == Success(r[i]);
          Success(r)
  }

  /** The exception of the first field that throws is the one `MakeRunClearanceList` propagates. */
  lemma FirstErrorPropagates(verdicts: seq<Verdict>, k: nat)
    requires k < |verdicts| && verdicts[k].Failure?
    requires forall i :: 0 <= i < k ==> verdicts[i].Success?
    ensures Due(verdicts) == Failure(verdicts[k].error)
  {
    var r := Clearance(verdicts);
    var j :| 0 <= j < |verdicts| && verdicts[j] == Failure(r.error) && forall i :: 0 <= i < j ==> verdicts[i].Success?;
    assert j == k;
  }

  /**
   * The decision `ShouldRun` takes from the verdicts: an exception of any
   * field propagates, otherwise the job is due when no verdict is false.
   */
  function Due(verdicts: seq<Verdict>): (r: Result<bool, FieldError>)
    ensures r == Success(true) <==> forall i :: 0 <= i < |verdicts| ==> verdicts[i] == Success(true)
    ensures r.Failure? <==> exists i :: 0 <= i < |verdicts| && verdicts[i].Failure?
    ensures r == Success(false) <==>
              (forall i :: 0 <= i < |verdicts| ==> verdicts[i].Success?)
              && exists i :: 0 <= i < |verdicts| && verdicts[i] == Success(false)
  {
    match Clearance(verdicts)
    case Failure(e) => Failure(e)
    case Success(passes) =>
      assert forall i :: 0 <= i < |verdicts| ==> (passes[i] <==> verdicts[i] == Success(true));
      Success(false !in passes)
  }

  /**
   * `ShouldRun`: the job is due when every field accepts its value of
   * `now`. All five verdicts are computed before any is looked at, so an
   * error in any field is an error of the whole check, even when another
   * field already refused.
   */
  function ShouldRun(job: Job, now: Instant): (r: Result<bool, FieldError>)
    ensures r == Success(true) <==> forall i :: 0 <= i < 5 ==> Verdicts(job, now)[i] == Success(true)
    ensures r.Failure? <==> exists i :: 0 <= i < 5 && Verdicts(job, now)[i].Failure?
    ensures r == Success(false) <==>
              (forall i :: 0 <= i < 5 ==> Verdicts(job, now)[i].Success?)
              && exists i :: 0 <= i < 5 && Verdicts(job, now)[i] == Success(false)
  {
    Due(Verdicts(job, now))
  }

  /** Five known verdicts: due exactly when all five are true. */
  lemma DueOfVerdicts(v0: bool, v1: bool, v2: bool, v3: bool, v4: bool)
    ensures Due([Success(v0), Success(v1), Success(v2), Success(v3), Success(v4)]) == Success(v0 && v1 && v2 && v3 && v4)
  {
    var vs: seq<Verdict> := [Success(v0), Success(v1), Success(v2), Success(v3), Success(v4)];
    if !(v0 && v1 && v2 && v3 && v4) {
      var k := if !v0 then 0 else if !v1 then 1 else if !v2 then 2 else if !v3 then 3 else 4;
      assert vs[k] == Success(false);
    }
  }

  /** The one-character field `*` is a wildcard. */
  lemma StarIsWildcard(v: int)
    ensures CanRun("*", v) == Success(true)
  {
    assert "*"[0] == '*';
  }

  /** A job whose five fields are `*` is due at every instant. */
  lemma EveryMinuteIsDue(job: Job, now: Instant)
    requires job.timeParts == ["*", "*", "*", "*", "*"]
    ensures ShouldRun(job, now) == Success(true)
  {
    var f := job.timeParts;
    assert f[0] == "*" && f[1] == "*" && f[2] == "*" && f[3] == "*" && f[4] == "*";
    StarIsWildcard(now.minute);
    StarIsWildcard(now.hour);
    StarIsWildcard(now.day);
    StarIsWildcard(now.month);
    StarIsWildcard(now.dayOfWeek);
    assert Verdicts(job, now) == [Success(true), Success(true), Success(true), Success(true), Success(true)];
    DueOfVerdicts(true, true, true, true, true);
  }

  /**
   * A rule with fixed minute, hour, day and month and a wildcard day of
   * week, such as `0 0 1 1 *`, is due exactly at that minute of that day,
   * whatever the weekday.
   */
  lemma DateRuleIsDue(job: Job, now: Instant, minute: nat, hour: nat, day: nat, month: nat)
    requires minute <= Int32Max && hour <= Int32Max && day <= Int32Max && month <= Int32Max
    requires job.timeParts[0] == ShowNat(minute) && job.timeParts[1] == ShowNat(hour)
    requires job.timeParts[2] == ShowNat(day) && job.timeParts[3] == ShowNat(month)
    requires job.timeParts[4] == "*"
    ensures ShouldRun(job, now)
            == Success(now.minute == minute && now.hour == hour && now.day == day && now.month == month)
  {
    NumberMatches(minute, now.minute);
    NumberMatches(hour, now.hour);
    NumberMatches(day, now.day);
    NumberMatches(month, now.month);
    StarIsWildcard(now.dayOfWeek);
    var v0, v1, v2, v3 := minute == now.minute, hour == now.hour, day == now.day, month == now.month;
    assert Verdicts(job, now) == [Success(v0), Success(v1), Success(v2), Success(v3), Success(true)];
    DueOfVerdicts(v0, v1, v2, v3, true);
  }

  /**
   * No short circuit across fields: a rule such as `5 * * * x` is an error
   * at every minute, also at those its first field already refuses.
   */
  lemma LaterErrorIsNotMasked(job: Job, now: Instant, n: nat, bad: string)
    requires n <= Int32Max && now.minute != n
    requires job.timeParts[0] == ShowNat(n) && job.timeParts[4] == bad
    requires job.timeParts[1] == "*" && job.timeParts[2] == "*" && job.timeParts[3] == "*"
    requires Classify(bad) == Number && ParseInt32(bad).None?
    ensures ShouldRun(job, now) == Failure(NotAnInt(bad))
  {
    NumberMatches(n, now.minute);
    StarIsWildcard(now.hour);
    StarIsWildcard(now.day);
    StarIsWildcard(now.month);
    assert CanRun(bad, now.dayOfWeek) == Failure(NotAnInt(bad));
    var vs := Verdicts(job, now);
    assert vs == [Success(false), Success(true), Success(true), Success(true), Failure(NotAnInt(bad))];
    FirstErrorPropagates(vs, 4);
  }

  /**
   * Under the corrected constructor, a rule line naming a program and one
   * plain argument parses into its fields, the program and that argument.
   */
  lemma ParseOneArgumentRule(line: string, fields: TimeParts, cmd: string, arg: string)
    requires line == Join(fields, " ") + " " + (cmd + " " + arg)
    requires forall i :: 0 <= i < 5 ==> ' ' !in fields[i]
    requires |fields[0]| > 0 && !IsWhiteSpace(fields[0][0])
    requires |cmd| > 0 && ' ' !in cmd && '"' !in cmd
    requires |arg| > 0 && ' ' !in arg && '"' !in arg && !IsWhiteSpace(arg[|arg| - 1])
    ensures ParseJob(line) == Success(Job(fields, cmd + " " + arg, cmd, [arg]))
  {
    var cs := cmd + " " + arg;
    assert Tokenize(cs) == [cmd, arg] by {
      assert '"' !in cs by {
        forall i | 0 <= i < |cs| ensures cs[i] != '"' {
          if i < |cmd| { assert cs[i] == cmd[i]; }
          else if i > |cmd| { assert cs[i] == arg[i - |cmd| - 1]; }
        }
      }
      NoQuotesIsSplit(cs);
      assert cs == cmd + [' '] + arg;
      SplitHead(cmd, ' ', arg);
      SplitNoSeparator(arg, ' ');
    }
    assert Trim(line) == line by {
      assert Join(fields, " ")[0] == fields[0][0];
      assert line[0] == fields[0][0];
      assert line[|line| - 1] == arg[|arg| - 1];
      TrimOfTrimmed(line);
    }
    ParseRenderedJob(line, fields, cs);
  }

  /**
   * A rule of five `*` fields, such as `* * * * * echo hi`, parses under the
   * corrected constructor into its program and argument, and is due at
   * every instant.
   */
  lemma WildcardRuleAlwaysDue(line: string, cmd: string, arg: string, now: Instant)
    requires line == Join(["*", "*", "*", "*", "*"], " ") + " " + (cmd + " " + arg)
    requires |cmd| > 0 && ' ' !in cmd && '"' !in cmd
    requires |arg| > 0 && ' ' !in arg && '"' !in arg && !IsWhiteSpace(arg[|arg| - 1])
    ensures var r := ParseJob(line);
            r.Success? && r.value.command == cmd && r.value.commandArgs == [arg]
            && ShouldRun(r.value, now) == Success(true)
  {
    var fields: TimeParts := ["*", "*", "*", "*", "*"];
    ParseOneArgumentRule(line, fields, cmd, arg);
    EveryMinuteIsDue(Job(fields, cmd + " " + arg, cmd, [arg]), now);
  }

  /** What `ExecuteJob` hands to the process it starts: the program and the argument string. */
  datatype StartInfo = StartInfo(fileName: string, arguments: string)

  /**
   * `ExecuteJob`'s `FileName` and `Arguments`: the file name is the command
   * itself, and the arguments are joined with spaces. No arguments give an
   * empty argument string; otherwise file name, a space and argument string
   * join the command and the arguments with single spaces.
   */
  function StartInfoOf(job: Job): (si: StartInfo)
    ensures si.fileName == job.command
    ensures |job.commandArgs| == 0 ==> si.arguments == ""
    ensures |job.commandArgs| > 0 ==> si.fileName + " " + si.arguments == Join([job.command] + job.commandArgs, " ")
  {
    var si := StartInfo(job.command, Join(job.commandArgs, " "));
    if |job.commandArgs| > 0 then JoinAppend([job.command], job.commandArgs, " "); si else si
  }

  /**
   * For a job from the corrected constructor, the process started runs the
   * command string of its rule: the file name alone when there are no
   * arguments, otherwise file name, one space and the argument string.
   */
  lemma StartInfoRebuildsCommand(line: string)
    requires ParseJob(line).Success?
    ensures var job := ParseJob(line).value;
            var si := StartInfoOf(job);
            if |job.commandArgs| == 0 then si.fileName == job.commandString && si.arguments == ""
            else si.fileName + " " + si.arguments == job.commandString
  {
    var job := ParseJob(line).value;
    if |job.commandArgs| == 0 {
      assert [job.command] + job.commandArgs == [job.command];
    }
  }

  /**
   * The constructor as written: `commandParts.Take(1).ToString()` yields the
   * name of the iterator type that `Take` returns, not the first token. That
   * name comes from the runtime and is a parameter here; everything else is
   * as in `ParseJob`.
   */
  function ParseJobAsWritten(line: string, takeTypeName: string): (r: Result<Job, JobError>)
    ensures r.Success? <==> ParseJob(line).Success?
    ensures r.Success? ==> r.value.command == takeTypeName
    ensures r.Success? ==> r.value.timeParts == ParseJob(line).value.timeParts
    ensures r.Success? ==> r.value.commandArgs == ParseJob(line).value.commandArgs
  {
    match ParseJob(line)
    case Failure(e) => Failure(e)
    case Success(job) => Success(job.(command := takeTypeName))
  }

  /**
   * As written, every accepted line gets the same command, whatever program
   * the line names.
   */
  lemma AsWrittenCommandIgnoresLine(line1: string, line2: string, takeTypeName: string)
    requires ParseJob(line1).Success? && ParseJob(line2).Success?
    ensures ParseJobAsWritten(line1, takeTypeName).value.command
         == ParseJobAsWritten(line2, takeTypeName).value.command
  {
  }

  /**
   * As written, a rule such as `* * * * * echo hi` would start a program
   * named after a `System.Linq` iterator type instead of `echo`; the
   * corrected constructor starts `echo` with the argument `hi`.
   */
  lemma AsWrittenStartsWrongProgram(line: string, fields: TimeParts, cmd: string, arg: string, takeTypeName: string)
    requires line == Join(fields, " ") + " " + (cmd + " " + arg)
    requires forall i :: 0 <= i < 5 ==> ' ' !in fields[i]
    requires |fields[0]| > 0 && !IsWhiteSpace(fields[0][0])
    requires |cmd| > 0 && ' ' !in cmd && '"' !in cmd
    requires |arg| > 0 && ' ' !in arg && '"' !in arg && !IsWhiteSpace(arg[|arg| - 1])
    requires "System.Linq." <= takeTypeName && !("System.Linq." <= cmd)
    ensures && ParseJobAsWritten(line, takeTypeName).Success?
            && StartInfoOf(ParseJobAsWritten(line, takeTypeName).value).fileName != cmd
            && StartInfoOf(ParseJob(line).value) == StartInfo(cmd, arg)
  {
    ParseOneArgumentRule(line, fields, cmd, arg);
    assert [arg][1..] == [];
  }
}
