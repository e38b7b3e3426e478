/**
 * The queue-status check of the diagnostic tool (`check_cups_status`) and
 * its auto-recovery assessment.
 *
 * The check asks for the printer state.  Text containing "idle" means the
 * queue is ready, whatever else it says.  Otherwise text containing
 * "disabled" starts the assessment: the job listing is fetched, then the
 * long printer state is searched for a recoverable reason, and the
 * outcome is one of three.  The assessment only reports; it issues no
 * command that changes the queue.
 */
module Recovery {
  import opened Wrappers
  import opened Config
  import opened Text
  import opened Lpstat
  import opened Cups
  import Seqs

  /** The assessment of a disabled queue. */
  datatype Advice = Eligible(reason: string) | JobsPresent | ReasonUnrecognized

  /** What the status check finds; `Unknown` keeps the text it could not classify. */
  datatype Status = Idle | Disabled(advice: Advice) | Unknown(raw: string)

  /**
   * The three-way decision: eligible when the queue is empty and a reason
   * matched; otherwise skipped because of the jobs, or, for an empty queue,
   * because no reason matched.
   */
  function Advise(queueEmpty: bool, hint: Option<string>): (a: Advice)
    ensures a.Eligible? <==> queueEmpty && hint.Some?
    ensures a.Eligible? ==> a.reason == hint.value
    ensures a == JobsPresent <==> !queueEmpty
    ensures a == ReasonUnrecognized <==> queueEmpty && hint.None?
  {
    if queueEmpty && hint.Some? then Eligible(hint.value)
    else if !queueEmpty then JobsPresent
    else ReasonUnrecognized
  }

  /**
   * The outcome of the check and the command log after it, starting from
   * `log`: idle exactly when the state text says "idle"; disabled exactly
   * when it says "disabled" and not "idle"; otherwise unknown, keeping the
   * text.  Only a disabled queue leads to more than the one state query.
   */
  function StatusOf(run: Runner, log: seq<string>, ed: Edition): (r: (Status, seq<string>))
    ensures r.0 == Idle <==> Contains(run(log, StateCommand), "idle")
    ensures r.0.Disabled? <==> !Contains(run(log, StateCommand), "idle") && Contains(run(log, StateCommand), "disabled")
    ensures r.0.Unknown? ==> r.0.raw == run(log, StateCommand)
    ensures !r.0.Disabled? ==> r.1 == log + [StateCommand]
  {
    var raw := run(log, StateCommand);
    var log1 := log + [StateCommand];
    if Contains(raw, "idle") then (Idle, log1)
    else if Contains(raw, "disabled") then
      var q := QueryJobs(run, log1, ed);
      var hint := MatchReason(Lower(run(q.1, LongCommand)));
      (Disabled(Advise(q.0 == [], hint)), q.1 + [LongCommand])
    else (Unknown(raw), log1)
  }

  /** `check_cups_status`: true exactly when the queue is idle. */
  method CheckCupsStatus(client: CupsClient, ed: Edition) returns (ready: bool, status: Status)
    modifies client
    ensures (status, client.issued) == StatusOf(client.run, old(client.issued), ed)
    ensures ready <==> status == Idle
  {
    var result := client.PrinterStateRaw();
    if Contains(result, "idle") {
      return true, Idle;
    }
    if Contains(result, "disabled") {
      var jobs := client.GetJobs(ed);
      var hint := client.HasRecoverableReasonHint();
      return false, Disabled(Advise(jobs == [], hint));
    }
    return false, Unknown(result);
  }

  // ---------------------------------------------------------------
  // What the outcome means
  // ---------------------------------------------------------------

  /** "idle" is looked for first: a reply saying both "idle" and "disabled" is idle, and nothing more is asked. */
  lemma IdleWins(run: Runner, log: seq<string>, ed: Edition)
    requires Contains(run(log, StateCommand), "idle")
    ensures StatusOf(run, log, ed) == (Idle, log + [StateCommand])
  {
  }

  /**
   * An eligible outcome names a reason the long printer state holds
   * (case-insensitively), one of the three looked for, and is only given
   * for a disabled, non-idle queue whose listing came back empty.
   */
  lemma EligibleMeans(run: Runner, log: seq<string>, ed: Edition, r: string)
    requires StatusOf(run, log, ed).0 == Disabled(Eligible(r))
    ensures var raw := run(log, StateCommand);
      !Contains(raw, "idle") && Contains(raw, "disabled")
    ensures var q := QueryJobs(run, log + [StateCommand], ed);
      q.0 == [] && Contains(Lower(run(q.1, LongCommand)), r)
    ensures r == Needles[0] || r == Needles[1] || r == Needles[2]
  {
    var q := QueryJobs(run, log + [StateCommand], ed);
    var text := Lower(run(q.1, LongCommand));
    assert MatchReason(text) == Some(r);
    MatchReasonPriority(text);
    if r != Needles[0] && r != Needles[1] {
      assert MatchReason(text) == Some(Needles[2]);
    }
  }

  /**
   * A disabled, non-idle queue with an empty listing whose long state holds
   * any of the reasons is eligible, with the first reason in priority order.
   */
  lemma EligibleWhen(run: Runner, log: seq<string>, ed: Edition, k: nat)
    requires var raw := run(log, StateCommand);
      !Contains(raw, "idle") && Contains(raw, "disabled")
    requires var q := QueryJobs(run, log + [StateCommand], ed);
      q.0 == [] && k < |Needles| && Contains(Lower(run(q.1, LongCommand)), Needles[k])
    ensures StatusOf(run, log, ed).0.Disabled?
    ensures StatusOf(run, log, ed).0.advice.Eligible?
    ensures var q := QueryJobs(run, log + [StateCommand], ed);
      StatusOf(run, log, ed).0.advice.reason == MatchReason(Lower(run(q.1, LongCommand))).value
  {
    var q := QueryJobs(run, log + [StateCommand], ed);
    MatchReasonPriority(Lower(run(q.1, LongCommand)));
  }

  /** A listing with jobs in it is reported as skipped, whatever the printer's reasons say. */
  lemma JobsBlockRecovery(run: Runner, log: seq<string>, ed: Edition)
    requires var raw := run(log, StateCommand);
      !Contains(raw, "idle") && Contains(raw, "disabled")
    requires QueryJobs(run, log + [StateCommand], ed).0 != []
    ensures StatusOf(run, log, ed).0 == Disabled(JobsPresent)
  {
  }

  // ---------------------------------------------------------------
  // The check only asks
  // ---------------------------------------------------------------

  /** The commands that only read the spooler's state. */
  predicate IsQuery(c: string) {
    c == StateCommand || c == LongCommand || c == ListNotCompleted || c == ListAll
  }

  /** No query is a command that changes the queue: pause, resume or any cancel. */
  lemma QueriesChangeNothing(c: string)
    requires IsQuery(c)
    ensures c != PauseCommand && c != ResumeCommand && c != CancelAllCommand
    ensures forall id: string, ed: Edition {:trigger CancelCommand(id, ed)} :: c != CancelCommand(id, ed)
  {
    assert c[..6] == "lpstat";
    assert PauseCommand[..6] == "sudo c" && ResumeCommand[..6] == "sudo c" && CancelAllCommand[..6] == "cancel";
    forall id: string, ed: Edition ensures c != CancelCommand(id, ed) {
      assert CancelCommand(id, ed)[..6] == "cancel";
    }
  }

  /** The listing commands `get_jobs` issues after `log`: one, or two on the fallback. */
  function Listing(run: Runner, log: seq<string>): seq<string> {
    [ListNotCompleted] + (if NeedsFallback(run(log, ListNotCompleted)) then [ListAll] else [])
  }

  /** The commands the check issues: the state command, then for a disabled queue the listing and the long state. */
  function Asked(run: Runner, log: seq<string>): seq<string> {
    var raw := run(log, StateCommand);
    if Contains(raw, "idle") || !Contains(raw, "disabled") then [StateCommand]
    else [StateCommand] + Listing(run, log + [StateCommand]) + [LongCommand]
  }

  /** The check appends exactly the commands `Asked` lists, and they are all queries. */
  lemma CheckIssuesOnlyQueries(run: Runner, log: seq<string>, ed: Edition)
    ensures StatusOf(run, log, ed).1 == log + Asked(run, log)
    ensures forall i :: 0 <= i < |Asked(run, log)| ==> IsQuery(Asked(run, log)[i])
    ensures Asked(run, log)[0] == StateCommand
    ensures !StatusOf(run, log, ed).0.Disabled? <==> Asked(run, log) == [StateCommand]
  {
    var raw := run(log, StateCommand);
    var log1 := log + [StateCommand];
    if !Contains(raw, "idle") && Contains(raw, "disabled") {
      var l := Listing(run, log1);
      assert StatusOf(run, log, ed).1 == QueryJobs(run, log1, ed).1 + [LongCommand];
      ListingLog(run, log1, ed);
      assert Asked(run, log) == [StateCommand] + l + [LongCommand];
      Seqs.Bracket(log, StateCommand, l, LongCommand);
    } else {
      assert StatusOf(run, log, ed).1 == log1;
    }
    AskedAreQueries(run, log);
  }

  lemma AskedAreQueries(run: Runner, log: seq<string>)
    ensures forall i :: 0 <= i < |Asked(run, log)| ==> IsQuery(Asked(run, log)[i])
    ensures Asked(run, log)[0] == StateCommand
    ensures |Asked(run, log)| == 1 || |Asked(run, log)| >= 3
  {
    var a := Asked(run, log);
    var l := Listing(run, log + [StateCommand]);
    forall i | 0 <= i < |l| ensures IsQuery(l[i]) {
    }
    forall i | 0 <= i < |a| ensures IsQuery(a[i]) {
      if |a| > 1 {
        assert a == [StateCommand] + l + [LongCommand];
        if 1 <= i < 1 + |l| {
          assert a[i] == l[i - 1];
        }
      }
    }
  }

  lemma ListingLog(run: Runner, log: seq<string>, ed: Edition)
    ensures QueryJobs(run, log, ed).1 == log + Listing(run, log)
  {
    QueryJobsCommands(run, log, ed);
  }
}
