/**
 * The queue manager dialog (`QueueDialog`) without its widgets.
 *
 * The dialog holds the rows of its job table, the status line, the two
 * spin-button settings (age threshold in minutes, auto-refresh period in
 * seconds) and the auto-refresh timer, which is either absent or one
 * repeating timer with a period.  `refresh` re-reads the printer state and
 * the job listing and rebuilds the rows; changing the threshold re-flags
 * the rows in place without asking the spooler anything.  Every action
 * that changes the queue is gated by a confirmation answer, given here as
 * a boolean, and is followed by a refresh only when confirmed.
 *
 * `now` is the clock reading in seconds at the refresh, and `localTime`
 * converts a parsed timestamp to seconds on the same clock.
 */
module QueueView {
  import opened Wrappers
  import opened Config
  import opened Text
  import opened Timestamps
  import opened Lpstat
  import opened Cups
  import opened Age
  import Seqs

  /** One row of the job table; `highlighted` is the row's background flag. */
  datatype Row = Row(jobId: string, user: string, age: string, status: string, file: string,
                     ageMinutes: int, highlighted: bool)

  /** What the dialog shows, with the command log behind it. */
  datatype View = View(statusLine: string, rows: seq<Row>, log: seq<string>)

  const DisabledHead: string := "Queue Status: DISABLED / PAUSED"
  const EnabledHead: string := "Queue Status: ENABLED"

  /** The status line for the trimmed state text `raw`: a head, then the state itself in parentheses when there is one. */
  function StatusSummary(raw: string): (s: string)
    ensures |s| >= |EnabledHead|
    ensures raw != [] ==> |s| >= |raw| + 2 && s[|s| - |raw| - 2..] == "(" + raw + ")"
  {
    var head := if Contains(raw, "disabled") then DisabledHead else EnabledHead;
    if raw == [] then head
    else
      var s := head + "   (" + raw + ")";
      assert s == (head + "   ") + ("(" + raw + ")");
      s
  }

  /** The submission time in seconds, through the local-time conversion. */
  function SubmittedSeconds(at: Option<DateTime>, localTime: DateTime -> int): Option<int> {
    match at
    case None => None
    case Some(d) => Some(localTime(d))
  }

  /**
   * The row `refresh` writes for job `j`: the job's id, user, status and
   * file; an age reading "unknown" exactly when the job has no time, and
   * otherwise the text for its minutes, which are the job's age at `now`
   * counted as 0 when the timestamp lies ahead of the clock; 0 minutes
   * for a job without a time.  The row is flagged against `threshold`, so
   * with a threshold set a dated job is flagged exactly when its age
   * reaches it.
   */
  function RowOf(j: PrintJob, now: int, threshold: int, localTime: DateTime -> int, ed: Edition): (r: Row)
    ensures r.jobId == j.jobId && r.user == j.user && r.status == j.status && r.file == j.file
    ensures r.ageMinutes >= 0
    ensures r.age == "unknown" <==> j.submittedAt.None?
    ensures j.submittedAt.None? ==> r.ageMinutes == 0
    ensures j.submittedAt.Some? ==>
      r.ageMinutes == (var m := MinutesBetween(now, localTime(j.submittedAt.value)); if m < 0 then 0 else m)
    ensures j.submittedAt.Some? ==> r.age == AgeText(r.ageMinutes)
    ensures r.highlighted <==> threshold > 0 && r.ageMinutes >= threshold
    ensures j.submittedAt.Some? && threshold > 0 ==>
      (r.highlighted <==> MinutesBetween(now, localTime(j.submittedAt.value)) >= threshold)
  {
    var age := FmtAge(SubmittedSeconds(j.submittedAt, localTime), now, ed);
    var m := RowMinutes(age, ed);
    Row(j.jobId, j.user, age.text, j.status, j.file, m, Highlighted(threshold, m))
  }

  function RowMaker(now: int, threshold: int, localTime: DateTime -> int, ed: Edition): PrintJob -> Row {
    j => RowOf(j, now, threshold, localTime, ed)
  }

  /** The rows for a job listing, one per job, in listing order. */
  function RowsOf(jobs: seq<PrintJob>, now: int, threshold: int, localTime: DateTime -> int, ed: Edition): seq<Row> {
    Seqs.Map(RowMaker(now, threshold, localTime, ed), jobs)
  }

  /** What `refresh` shows, and the log after it, starting from `log`. */
  function Refreshed(run: Runner, log: seq<string>, ed: Edition, now: int, threshold: int,
                     localTime: DateTime -> int): View
  {
    var raw := run(log, StateCommand);
    var q := QueryJobs(run, log + [StateCommand], ed);
    View(StatusSummary(Trim(raw)), RowsOf(q.0, now, threshold, localTime, ed), q.1)
  }

  /** `apply_highlight_only`: every row re-flagged against `threshold`, nothing else touched. */
  function Rehighlight(rows: seq<Row>, threshold: int): (r: seq<Row>)
    ensures |r| == |rows|
    ensures forall i :: 0 <= i < |r| ==> r[i].(highlighted := rows[i].highlighted) == rows[i]
    ensures forall i :: 0 <= i < |r| ==> (r[i].highlighted <==> threshold > 0 && rows[i].ageMinutes >= threshold)
  {
    seq(|rows|, i requires 0 <= i < |rows| => rows[i].(highlighted := Highlighted(threshold, rows[i].ageMinutes)))
  }

  /** `restart_timer`: no timer for a period of 0 or less, else one with that period. */
  function TimerFor(seconds: int): (t: Option<nat>)
    ensures t.None? <==> seconds <= 0
    ensures t.Some? ==> t.value == seconds
  {
    if seconds <= 0 then None else Some(seconds)
  }

  /** The log after `cancel_all_from_user(user)`: the listing, then the user's cancels. */
  function UserCancelLog(run: Runner, log: seq<string>, user: string, ed: Edition): seq<string> {
    var q := QueryJobs(run, log, ed);
    q.1 + Cancels(q.0, user, ed)
  }

  // ---------------------------------------------------------------
  // What a refresh shows
  // ---------------------------------------------------------------

  /**
   * The two editions write the same row for a job: the same age text and
   * the same stored minutes, although `fmt_age` hands them different raw
   * minutes for an unknown or a future timestamp.
   */
  lemma EditionsShowTheSameRow(j: PrintJob, now: int, threshold: int, localTime: DateTime -> int)
    ensures RowOf(j, now, threshold, localTime, Release) == RowOf(j, now, threshold, localTime, Dev)
  {
    EditionsShowTheSameAge(SubmittedSeconds(j.submittedAt, localTime), now);
  }

  /** `Refreshed` spelt out for a given result of the listing. */
  lemma RefreshedIs(run: Runner, log: seq<string>, ed: Edition, now: int, threshold: int,
                    localTime: DateTime -> int, jobs: seq<PrintJob>, log': seq<string>)
    requires (jobs, log') == QueryJobs(run, log + [StateCommand], ed)
    ensures Refreshed(run, log, ed, now, threshold, localTime)
      == View(StatusSummary(Trim(run(log, StateCommand))), RowsOf(jobs, now, threshold, localTime, ed), log')
  {
  }

  /**
   * After a refresh the status line describes the state text, and the rows
   * are the jobs of the listing `get_jobs` returned, one row per job in
   * listing order; the refresh asked only for the state and the listing.
   */
  lemma RefreshShowsListing(run: Runner, log: seq<string>, ed: Edition, now: int, threshold: int,
                            localTime: DateTime -> int)
    ensures var v := Refreshed(run, log, ed, now, threshold, localTime);
      var q := QueryJobs(run, log + [StateCommand], ed);
      |v.rows| == |q.0|
      && (forall i :: 0 <= i < |v.rows| ==> v.rows[i] == RowOf(q.0[i], now, threshold, localTime, ed))
      && v.statusLine == StatusSummary(Trim(run(log, StateCommand)))
    ensures var v := Refreshed(run, log, ed, now, threshold, localTime);
      v.log == log + [StateCommand] + [ListNotCompleted]
                   + (if NeedsFallback(run(log + [StateCommand], ListNotCompleted)) then [ListAll] else [])
  {
    var q := QueryJobs(run, log + [StateCommand], ed);
    RefreshedIs(run, log, ed, now, threshold, localTime, q.0, q.1);
    Seqs.MapIndex(RowMaker(now, threshold, localTime, ed), q.0);
    QueryJobsCommands(run, log + [StateCommand], ed);
  }

  /** The status line says DISABLED exactly when the state text does, and quotes the text when there is any. */
  lemma SummaryShowsState(raw: string)
    ensures var s := StatusSummary(raw);
      (|s| >= |DisabledHead| && s[..|DisabledHead|] == DisabledHead) <==> Contains(raw, "disabled")
    ensures raw == [] ==> (StatusSummary(raw) == DisabledHead || StatusSummary(raw) == EnabledHead)
    ensures raw != [] ==> (StatusSummary(raw) == DisabledHead + "   (" + raw + ")"
                           || StatusSummary(raw) == EnabledHead + "   (" + raw + ")")
  {
    var s := StatusSummary(raw);
    var head := if Contains(raw, "disabled") then DisabledHead else EnabledHead;
    var tail := if raw == [] then "" else "   (" + raw + ")";
    assert s == head + tail by {
      if raw != [] {
        assert head + "   (" + raw + ")" == head + ("   (" + raw + ")");
      }
    }
    if Contains(raw, "disabled") {
      assert s[..|DisabledHead|] == DisabledHead;
    } else if |s| >= |DisabledHead| {
      assert s[14] == EnabledHead[14] == 'E';
      assert DisabledHead[14] == 'D';
      assert s[..|DisabledHead|][14] != DisabledHead[14];
    }
  }

  // ---------------------------------------------------------------
  // Re-flagging in place
  // ---------------------------------------------------------------

  /** Re-flagging twice is re-flagging with the last threshold: the earlier one leaves no trace. */
  lemma RehighlightTwice(rows: seq<Row>, t: int, t': int)
    ensures Rehighlight(Rehighlight(rows, t), t') == Rehighlight(rows, t')
  {
  }

  /**
   * Re-flagging the rows of a refresh against a new threshold gives the rows
   * a refresh would have built with that threshold, without a new listing.
   */
  lemma RehighlightMatchesRefresh(jobs: seq<PrintJob>, now: int, t: int, t': int,
                                  localTime: DateTime -> int, ed: Edition)
    ensures Rehighlight(RowsOf(jobs, now, t, localTime, ed), t') == RowsOf(jobs, now, t', localTime, ed)
  {
    Seqs.MapIndex(RowMaker(now, t, localTime, ed), jobs);
    Seqs.MapIndex(RowMaker(now, t', localTime, ed), jobs);
  }

  // ---------------------------------------------------------------
  // The dialog
  // ---------------------------------------------------------------

  class QueueDialog {
    const client: CupsClient
    const ed: Edition
    /** The local-time conversion of a parsed timestamp to clock seconds. */
    const localTime: DateTime -> int
    var statusLine: string
    var rows: seq<Row>
    /** The age spin button, 0..1440 minutes. */
    var ageThreshold: int
    /** The auto-refresh spin button, 0..3600 seconds. */
    var refreshSeconds: int
    /** The period of the refresh timer, if one is connected. */
    var timer: Option<nat>

    /** What the dialog shows, with the client's log. */
    function Shown(): View
      reads this, client
    {
      View(statusLine, rows, client.issued)
    }

    /** The settings no action but their own handlers change. */
    function Settings(): (int, int, Option<nat>)
      reads this
    {
      (ageThreshold, refreshSeconds, timer)
    }

    /** The dialog opens with a threshold of 10 minutes and a 5-second refresh, refreshes, and starts the timer. */
    constructor(client: CupsClient, ed: Edition, localTime: DateTime -> int, now: int)
      modifies client
      ensures this.client == client && this.ed == ed && this.localTime == localTime
      ensures Settings() == (10, 5, Some(5))
      ensures Shown() == Refreshed(client.run, old(client.issued), ed, now, 10, localTime)
    {
      this.client := client;
      this.ed := ed;
      this.localTime := localTime;
      statusLine := "";
      rows := [];
      ageThreshold := 10;
      refreshSeconds := 5;
      timer := None;
      new;
      Refresh(now);
      RestartTimer();
    }

    /** `set_status_line`. */
    method SetStatusLine()
      modifies this, client
      ensures statusLine == StatusSummary(Trim(client.run(old(client.issued), StateCommand)))
      ensures client.issued == old(client.issued) + [StateCommand]
      ensures rows == old(rows) && Settings() == old(Settings())
    {
      var raw := client.PrinterStateRaw();
      raw := TrimCopy(raw);
      var summary := if Contains(raw, "disabled") then DisabledHead else EnabledHead;
      if raw != [] {
        summary := summary + "   (" + raw + ")";
      }
      statusLine := summary;
    }

    /**
     * `refresh`: the status line, then the rows rebuilt from `get_jobs`.
     * The release edition flags each row as it is written; the dev edition
     * writes the rows unflagged and flags them all afterwards.
     */
    method Refresh(now: int)
      modifies this, client
      ensures Shown() == Refreshed(client.run, old(client.issued), ed, now, ageThreshold, localTime)
      ensures Settings() == old(Settings())
    {
      SetStatusLine();
      rows := [];
      var jobs := client.GetJobs(ed);
      ghost var log := client.issued;
      var paint := if ed == Release then ageThreshold else 0;
      AppendRows(jobs, now, paint);
      if ed == Dev {
        ApplyHighlightOnly();
        RehighlightMatchesRefresh(jobs, now, 0, ageThreshold, localTime, ed);
      }
      RefreshedIs(client.run, old(client.issued), ed, now, ageThreshold, localTime, jobs, log);
    }

    /** The loop of `refresh`: one row appended per listed job, flagged against `paint`. */
    method AppendRows(jobs: seq<PrintJob>, now: int, paint: int)
      requires rows == []
      modifies this
      ensures rows == RowsOf(jobs, now, paint, localTime, ed)
      ensures statusLine == old(statusLine) && Settings() == old(Settings())
    {
      for i := 0 to |jobs|
        invariant rows == RowsOf(jobs[..i], now, paint, localTime, ed)
        invariant statusLine == old(statusLine) && Settings() == old(Settings())
      {
        var j := jobs[i];
        var age := FmtAge(SubmittedSeconds(j.submittedAt, localTime), now, ed);
        var m := RowMinutes(age, ed);
        RowsSnoc(jobs, i, now, paint);
        rows := rows + [Row(j.jobId, j.user, age.text, j.status, j.file, m, Highlighted(paint, m))];
      }
      assert jobs[..|jobs|] == jobs;
    }

    lemma RowsSnoc(jobs: seq<PrintJob>, i: nat, now: int, threshold: int)
      requires i < |jobs|
      ensures RowsOf(jobs[..i + 1], now, threshold, localTime, ed)
        == RowsOf(jobs[..i], now, threshold, localTime, ed) + [RowOf(jobs[i], now, threshold, localTime, ed)]
    {
      var f := RowMaker(now, threshold, localTime, ed);
      assert jobs[..i + 1] == jobs[..i] + [jobs[i]];
      Seqs.MapAppend(f, jobs[..i], [jobs[i]]);
    }

    /** `apply_highlight_only` (dev: `apply_age_highlight`): re-flag the rows in place. */
    method ApplyHighlightOnly()
      modifies this
      ensures rows == Rehighlight(old(rows), ageThreshold)
      ensures statusLine == old(statusLine) && Settings() == old(Settings())
    {
      ghost var target := Rehighlight(rows, ageThreshold);
      var i := 0;
      while i < |rows|
        invariant 0 <= i <= |rows| == |target|
        invariant forall k :: 0 <= k < i ==> rows[k] == target[k]
        invariant forall k :: i <= k < |rows| ==> rows[k] == old(rows)[k]
        invariant statusLine == old(statusLine) && Settings() == old(Settings())
      {
        rows := rows[i := rows[i].(highlighted := Highlighted(ageThreshold, rows[i].ageMinutes))];
        i := i + 1;
      }
    }

    /** `restart_timer`: drop any timer, then connect one unless the period is 0 or less. */
    method RestartTimer()
      modifies this
      ensures timer == TimerFor(refreshSeconds)
      ensures statusLine == old(statusLine) && rows == old(rows)
      ensures ageThreshold == old(ageThreshold) && refreshSeconds == old(refreshSeconds)
    {
      timer := None;
      if refreshSeconds <= 0 {
        return;
      }
      timer := Some(refreshSeconds);
    }

    /** The refresh spin button changed. */
    method SetRefreshSeconds(seconds: int)
      requires 0 <= seconds <= 3600
      modifies this
      ensures refreshSeconds == seconds && timer == TimerFor(seconds)
      ensures statusLine == old(statusLine) && rows == old(rows) && ageThreshold == old(ageThreshold)
    {
      refreshSeconds := seconds;
      RestartTimer();
    }

    /** The age spin button changed: re-flag the rows, ask nothing. */
    method SetAgeThreshold(threshold: int)
      requires 0 <= threshold <= 1440
      modifies this
      ensures ageThreshold == threshold && rows == Rehighlight(old(rows), threshold)
      ensures statusLine == old(statusLine) && refreshSeconds == old(refreshSeconds) && timer == old(timer)
    {
      ageThreshold := threshold;
      ApplyHighlightOnly();
    }

    /** The timer fired: refresh, and keep the timer running. */
    method Tick(now: int)
      requires timer.Some?
      modifies this, client
      ensures Shown() == Refreshed(client.run, old(client.issued), ed, now, ageThreshold, localTime)
      ensures Settings() == old(Settings())
    {
      Refresh(now);
    }

    /** `cancel_selected`: the selected row's job, if one is selected and the cancel is confirmed. */
    method CancelSelected(sel: Option<nat>, confirm: bool, now: int)
      requires sel.Some? ==> sel.value < |rows|
      modifies this, client
      ensures sel.None? || !confirm ==> Shown() == old(Shown())
      ensures sel.Some? && confirm ==>
        Shown() == Refreshed(client.run, old(client.issued) + [CancelCommand(old(rows)[sel.value].jobId, ed)],
                             ed, now, ageThreshold, localTime)
      ensures Settings() == old(Settings())
    {
      if sel.None? {
        return;
      }
      var jobId := rows[sel.value].jobId;
      if !confirm {
        return;
      }
      client.CancelJob(jobId, ed);
      Refresh(now);
    }

    /** `cancel_all_from_user`: every job of the selected row's user, if it has one and the cancel is confirmed. */
    method CancelAllFromUser(sel: Option<nat>, confirm: bool, now: int)
      requires sel.Some? ==> sel.value < |rows|
      modifies this, client
      ensures sel.None? || old(rows)[sel.value].user == [] || !confirm ==> Shown() == old(Shown())
      ensures sel.Some? && old(rows)[sel.value].user != [] && confirm ==>
        Shown() == Refreshed(client.run, UserCancelLog(client.run, old(client.issued), old(rows)[sel.value].user, ed),
                             ed, now, ageThreshold, localTime)
      ensures Settings() == old(Settings())
    {
      if sel.None? {
        return;
      }
      var user := rows[sel.value].user;
      if user == [] || !confirm {
        return;
      }
      client.CancelAllFromUser(user, ed);
      Refresh(now);
    }

    /** `cancel_all_jobs` (the release dialog only). */
    method CancelAllJobs(confirm: bool, now: int)
      requires ed == Release
      modifies this, client
      ensures !confirm ==> Shown() == old(Shown())
      ensures confirm ==>
        Shown() == Refreshed(client.run, old(client.issued) + [CancelAllCommand], ed, now, ageThreshold, localTime)
      ensures Settings() == old(Settings())
    {
      if !confirm {
        return;
      }
      client.CancelAll();
      Refresh(now);
    }

    /** `pause_queue`. */
    method PauseQueue(confirm: bool, now: int)
      modifies this, client
      ensures !confirm ==> Shown() == old(Shown())
      ensures confirm ==>
        Shown() == Refreshed(client.run, old(client.issued) + [PauseCommand], ed, now, ageThreshold, localTime)
      ensures Settings() == old(Settings())
    {
      if !confirm {
        return;
      }
      client.PauseQueue();
      Refresh(now);
    }

    /** `resume_queue`. */
    method ResumeQueue(confirm: bool, now: int)
      modifies this, client
      ensures !confirm ==> Shown() == old(Shown())
      ensures confirm ==>
        Shown() == Refreshed(client.run, old(client.issued) + [ResumeCommand], ed, now, ageThreshold, localTime)
      ensures Settings() == old(Settings())
    {
      if !confirm {
        return;
      }
      client.ResumeQueue();
      Refresh(now);
    }
  }
}
