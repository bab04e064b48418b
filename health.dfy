/** The run's health signal: today's log lines are scanned for warnings and
    errors, and the outcome becomes the status record that external monitors
    read. The clock is replaced by parameters: today's date as the log writes
    it (`YYYY-MM-DD`) and the run's POSIX timestamp. */
module Health {
  import opened Text

  const FailureMessage := "An error/warning occured while trying to run the script!"
  const SuccessMessage := "No errors found while running the script."

  /** The status file's contents: `status`, `last_run`, `last_message`. */
  datatype StatusRecord = StatusRecord(status: int, lastRun: int, lastMessage: string)

  /** A log line written today that mentions a warning or an error anywhere in
      it (level name or message text). */
  predicate ReportsProblem(line: string, today: string)
  {
    StartsWith(line, today) && (Contains(line, "WARNING") || Contains(line, "ERROR"))
  }

  ghost predicate ProblemLogged(lines: seq<string>, today: string)
  {
    exists i :: 0 <= i < |lines| && ReportsProblem(lines[i], today)
  }

  /** `check_log_for_warnings_or_errors`: 0 when some line of the log reports a
      problem today, 1 otherwise. The loop stops at the first such line. */
  method CheckLog(lines: seq<string>, today: string) returns (code: int)
    ensures code == 0 <==> ProblemLogged(lines, today)
    ensures code == 1 <==> !ProblemLogged(lines, today)
  {
    var found := false;
    for i := 0 to |lines|
      invariant !found
      invariant forall j :: 0 <= j < i ==> !ReportsProblem(lines[j], today)
    {
      if ReportsProblem(lines[i], today) {
        found := true;
        break;
      }
    }
    if found {
      code := 0;
    } else {
      code := 1;
    }
  }

  /** The same scan without the early exit: the flag is or-ed over every
      line. */
  function ScanAll(lines: seq<string>, today: string, found: bool): bool
  {
    if lines == [] then found else ScanAll(lines[1..], today, found || ReportsProblem(lines[0], today))
  }

  /** Leaving the loop at the first problem line does not change the answer:
      scanning every line sets the flag exactly when a problem is logged. */
  lemma {:induction false} EarlyExitIrrelevant(lines: seq<string>, today: string, found: bool)
    ensures ScanAll(lines, today, found) <==> found || ProblemLogged(lines, today)
  {
    if lines != [] {
      EarlyExitIrrelevant(lines[1..], today, found || ReportsProblem(lines[0], today));
      assert ProblemLogged(lines, today) <==> ReportsProblem(lines[0], today) || ProblemLogged(lines[1..], today) by {
        if ProblemLogged(lines[1..], today) {
          var i :| 0 <= i < |lines[1..]| && ReportsProblem(lines[1..][i], today);
          assert lines[i + 1] == lines[1..][i];
        }
        if ProblemLogged(lines, today) {
          var i :| 0 <= i < |lines| && ReportsProblem(lines[i], today);
          if i > 0 {
            assert lines[1..][i - 1] == lines[i];
          }
        }
      }
    }
  }

  /** Python's `int(x)` for a float: truncation toward zero. */
  function Truncate(x: real): (n: int)
    ensures 0.0 <= x ==> n as real <= x < n as real + 1.0
    ensures x < 0.0 ==> n as real - 1.0 < x <= n as real
  {
    if 0.0 <= x then x.Floor else -((-x).Floor)
  }

  /** The status selection at the end of a run: failure with its message
      exactly when the log check finds a problem, success otherwise, stamped
      with the run's start time in whole seconds. */
  method HealthStatus(lines: seq<string>, today: string, timestamp: real) returns (s: StatusRecord)
    ensures s.status == 0 <==> ProblemLogged(lines, today)
    ensures s.status == 0 ==> s.lastMessage == FailureMessage
    ensures s.status != 0 ==> s.status == 1 && s.lastMessage == SuccessMessage
    ensures s.lastRun == Truncate(timestamp)
  {
    var code := CheckLog(lines, today);
    if code == 0 {
      s := StatusRecord(0, Truncate(timestamp), FailureMessage);
    } else {
      s := StatusRecord(1, Truncate(timestamp), SuccessMessage);
    }
  }
}
