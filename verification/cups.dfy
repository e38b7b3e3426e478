/**
 * `CupsClient`: the queue client.  Every query and action is one shell
 * command handed to the injected command runner, whose reply is the
 * command's output.
 *
 * The runner is modelled as a function `run(log, cmd)` of the command and
 * of the commands issued before it (a spooler's answer depends on what was
 * done to it), and the client keeps the log `issued` of every command it
 * has handed to the runner.  Each method states which commands it appends
 * to the log and what it returns, in terms of the functions below.
 */
module Cups {
  import opened Wrappers
  import opened Config
  import opened Text
  import opened Lpstat
  import Shell
  import Seqs

  /** The injected `m_exec`: the output of `cmd`, given the commands issued before it. */
  type Runner = (seq<string>, string) -> string

  // ---------------------------------------------------------------
  // Command lines
  // ---------------------------------------------------------------

  const StateCommand: string := "lpstat -p \"" + PrinterName + "\" 2>&1"
  const LongCommand: string := "lpstat -l -p \"" + PrinterName + "\" 2>&1"
  const ListNotCompleted: string := "lpstat -W not-completed -o -l 2>&1"
  const ListAll: string := "lpstat -o -l 2>&1"
  const CancelAllCommand: string := "cancel -a 2>&1"
  const PauseCommand: string := "sudo cupsdisable \"" + PrinterName + "\" 2>&1"
  const ResumeCommand: string := "sudo cupsenable \"" + PrinterName + "\" 2>&1"

  /** `cancel_job`: the dev edition quotes the id with `shell_escape`, the release edition puts it between single quotes. */
  function CancelCommand(jobId: string, ed: Edition): string {
    "cancel " + (if ed == Dev then Shell.ShellQuote(jobId) else Shell.PlainQuote(jobId)) + " 2>&1"
  }

  /**
   * The word after "cancel" is read back by the shell as the job id: always
   * in the dev edition, and in the release edition whenever the id has no
   * single quote (`PlainQuoteBreaksOnQuote` shows one that breaks it).
   */
  lemma CancelCommandNamesJob(jobId: string, ed: Edition)
    requires ed == Dev || Shell.Quote !in jobId
    ensures exists w :: CancelCommand(jobId, ed) == "cancel " + w + " 2>&1"
                      && Shell.Unquote(w, Shell.Bare) == Some(jobId)
  {
    if ed == Dev {
      Shell.ShellQuoteRoundTrip(jobId);
    } else {
      Shell.PlainQuoteReadsBack(jobId);
    }
  }

  /** For ids without a single quote the two editions issue the same command. */
  lemma EditionsCancelAlike(jobId: string)
    requires Shell.Quote !in jobId
    ensures CancelCommand(jobId, Dev) == CancelCommand(jobId, Release)
  {
    PlainEscape(jobId);
  }

  lemma {:induction false} PlainEscape(s: string)
    requires Shell.Quote !in s
    ensures Shell.EscapedBody(s) == s
    decreases |s|
  {
    if s != [] {
      assert Shell.Quote !in s[1..];
      PlainEscape(s[1..]);
    }
  }

  // ---------------------------------------------------------------
  // get_jobs
  // ---------------------------------------------------------------

  /** The first listing command's output says the option is not supported. */
  predicate NeedsFallback(out: string) {
    Contains(out, "Unknown option") || Contains(out, "invalid option")
  }

  /** The jobs `get_jobs` returns, and the log after it, starting from `log`. */
  function QueryJobs(run: Runner, log: seq<string>, ed: Edition): (seq<PrintJob>, seq<string>) {
    var first := run(log, ListNotCompleted);
    var log' := log + [ListNotCompleted];
    if NeedsFallback(first) then (Records(Lines(run(log', ListAll)), ed), log' + [ListAll])
    else (Records(Lines(first), ed), log')
  }

  /**
   * `get_jobs` issues the not-completed listing, then the plain listing
   * exactly when the first reply reports an unknown or invalid option,
   * and returns the jobs of the last reply.
   */
  lemma QueryJobsCommands(run: Runner, log: seq<string>, ed: Edition)
    ensures var (jobs, log') := QueryJobs(run, log, ed);
      var fallback := NeedsFallback(run(log, ListNotCompleted));
      log' == log + [ListNotCompleted] + (if fallback then [ListAll] else [])
      && |log'| - |log| == (if fallback then 2 else 1)
      && jobs == Records(Lines(run(log'[..|log'| - 1], log'[|log'| - 1])), ed)
  {
    var log1 := log + [ListNotCompleted];
    assert (log1 + [ListAll])[..|log1|] == log1;
    assert log1[..|log|] == log;
  }

  // ---------------------------------------------------------------
  // cancel_all_from_user
  // ---------------------------------------------------------------

  /** The ids of the jobs `user` owns, in listing order. */
  function OwnedIds(jobs: seq<PrintJob>, user: string): seq<string>
    decreases |jobs|
  {
    if jobs == [] then []
    else (if jobs[0].user == user then [jobs[0].jobId] else []) + OwnedIds(jobs[1..], user)
  }

  /** `cancel_job`'s command for one edition, as a function value. */
  function CancelFor(ed: Edition): string -> string {
    id => CancelCommand(id, ed)
  }

  /** The cancel commands `cancel_all_from_user(user)` issues after listing `jobs`. */
  function Cancels(jobs: seq<PrintJob>, user: string, ed: Edition): seq<string> {
    Seqs.Map(CancelFor(ed), OwnedIds(jobs, user))
  }

  /** How many of the jobs `user` owns. */
  function Owned(jobs: seq<PrintJob>, user: string): nat
    decreases |jobs|
  {
    if jobs == [] then 0 else (if jobs[0].user == user then 1 else 0) + Owned(jobs[1..], user)
  }

  lemma {:induction false} OwnedIdsAppend(a: seq<PrintJob>, b: seq<PrintJob>, user: string)
    ensures OwnedIds(a + b, user) == OwnedIds(a, user) + OwnedIds(b, user)
    decreases |a|
  {
    if a == [] {
      assert a + b == b;
    } else {
      assert (a + b)[0] == a[0] && (a + b)[1..] == a[1..] + b;
      OwnedIdsAppend(a[1..], b, user);
    }
  }

  /**
   * The cancels follow listing order: those for an earlier part of the
   * listing come before those for a later part, and a single job gets a
   * cancel exactly when `user` owns it.
   */
  lemma CancelsInListingOrder(a: seq<PrintJob>, b: seq<PrintJob>, user: string, ed: Edition)
    ensures Cancels(a + b, user, ed) == Cancels(a, user, ed) + Cancels(b, user, ed)
    ensures forall j :: Cancels([j], user, ed) == if j.user == user then [CancelCommand(j.jobId, ed)] else []
  {
    OwnedIdsAppend(a, b, user);
    Seqs.MapAppend(CancelFor(ed), OwnedIds(a, user), OwnedIds(b, user));
    forall j ensures Cancels([j], user, ed) == if j.user == user then [CancelCommand(j.jobId, ed)] else [] {
      assert [j][1..] == [] && [j.jobId][1..] == [];
      assert OwnedIds([j], user) == (if j.user == user then [j.jobId] else []);
      assert Seqs.Map(CancelFor(ed), [j.jobId]) == [CancelFor(ed)(j.jobId)] + Seqs.Map(CancelFor(ed), []);
    }
  }

  /** Listing one more job adds its cancel exactly when `user` owns it. */
  lemma CancelsSnoc(jobs: seq<PrintJob>, j: PrintJob, user: string, ed: Edition)
    ensures Cancels(jobs + [j], user, ed)
      == Cancels(jobs, user, ed) + (if j.user == user then [CancelCommand(j.jobId, ed)] else [])
  {
    CancelsInListingOrder(jobs, [j], user, ed);
  }

  /** One cancel per owned job, and none when the user owns no job. */
  lemma {:induction false} OneCancelPerOwnedJob(jobs: seq<PrintJob>, user: string, ed: Edition)
    ensures |Cancels(jobs, user, ed)| == Owned(jobs, user)
    ensures Cancels(jobs, user, ed) == [] <==> forall k :: 0 <= k < |jobs| ==> jobs[k].user != user
  {
    OwnedCount(jobs, user);
  }

  lemma {:induction false} OwnedCount(jobs: seq<PrintJob>, user: string)
    ensures |OwnedIds(jobs, user)| == Owned(jobs, user)
    ensures Owned(jobs, user) == 0 <==> forall k :: 0 <= k < |jobs| ==> jobs[k].user != user
    decreases |jobs|
  {
    if jobs != [] {
      OwnedCount(jobs[1..], user);
      if jobs[0].user != user {
        assert forall k :: 1 <= k < |jobs| ==> jobs[k] == jobs[1..][k - 1];
      }
    }
  }

  // ---------------------------------------------------------------
  // get_printer_friendly_name
  // ---------------------------------------------------------------

  const DescriptionKey: string := "Description:"

  /** `find_first_not_of(chars)` from `from`. */
  function FirstNotIn(s: string, chars: string, from: nat): (r: Option<nat>)
    decreases |s| - from
    ensures r.Some? ==> from <= r.value < |s| && s[r.value] !in chars
    ensures r.Some? ==> forall j :: from <= j < r.value ==> s[j] in chars
    ensures r.None? ==> forall j :: from <= j < |s| ==> s[j] in chars
  {
    if from >= |s| then None
    else if s[from] !in chars then Some(from)
    else FirstNotIn(s, chars, from + 1)
  }

  /** `find_last_not_of(chars)`. */
  function LastNotIn(s: string, chars: string): (r: Option<nat>)
    ensures r.Some? ==> r.value < |s| && s[r.value] !in chars
    ensures r.Some? ==> forall j :: r.value < j < |s| ==> s[j] in chars
    ensures r.None? ==> forall j :: 0 <= j < |s| ==> s[j] in chars
  {
    if s == [] then None
    else if s[|s| - 1] !in chars then Some(|s| - 1)
    else LastNotIn(s[..|s| - 1], chars)
  }

  /**
   * The trimming applied to the text after "Description:": leading spaces
   * and tabs, trailing spaces, tabs, CR and LF.  When either end finds no
   * such character the text is kept as it is.
   */
  function TrimDescription(desc: string): (r: string)
    ensures |r| <= |desc|
    ensures r == [] <==> desc == []
  {
    var l := FirstNotIn(desc, " \t", 0);
    var r := LastNotIn(desc, " \t\r\n");
    if l.Some? && r.Some? then
      assert desc[r.value] !in " \t";
      desc[l.value..r.value + 1]
    else desc
  }

  /** The description a line carries: the trimmed text after the first "Description:", if any. */
  function DescriptionOf(line: string): Option<string> {
    match FindFrom(line, DescriptionKey, 0)
    case None => None
    case Some(p) => Some(TrimDescription(line[p + |DescriptionKey|..]))
  }

  /** The friendly name: the first non-empty description, else the queue name. */
  function FriendlyNameOf(lines: seq<string>): string
    decreases |lines|
  {
    if lines == [] then PrinterName
    else match DescriptionOf(lines[0])
      case Some(d) => if d != [] then d else FriendlyNameOf(lines[1..])
      case None => FriendlyNameOf(lines[1..])
  }

  /**
   * A description with a visible character is trimmed to the contiguous
   * part from its first character that is not a space or tab to its last
   * that is not a space, tab, CR or LF; one made only of those characters
   * is returned untrimmed.
   */
  lemma DescriptionTrimmed(desc: string) returns (i: nat)
    ensures var t := TrimDescription(desc);
      (forall k :: 0 <= k < |desc| ==> desc[k] in " \t\r\n") ==> t == desc
    ensures var t := TrimDescription(desc);
      (exists k :: 0 <= k < |desc| && desc[k] !in " \t\r\n") ==>
        i + |t| <= |desc| && t == desc[i..i + |t|] && t != []
        && t[0] !in " \t" && t[|t| - 1] !in " \t\r\n"
        && (forall j :: 0 <= j < i ==> desc[j] in " \t")
        && (forall j :: i + |t| <= j < |desc| ==> desc[j] in " \t\r\n")
  {
    var l := FirstNotIn(desc, " \t", 0);
    var r := LastNotIn(desc, " \t\r\n");
    i := 0;
    if r.Some? {
      assert desc[r.value] !in " \t";
      i := l.value;
      assert TrimDescription(desc) == desc[i..r.value + 1];
      Between(desc, i, r.value);
    }
  }

  /** The slice from a first kept position to a last kept one. */
  lemma Between(desc: string, a: nat, b: nat)
    requires a <= b < |desc|
    requires desc[a] !in " \t" && forall j :: 0 <= j < a ==> desc[j] in " \t"
    requires desc[b] !in " \t\r\n" && forall j :: b < j < |desc| ==> desc[j] in " \t\r\n"
    ensures var t := desc[a..b + 1];
      a + |t| <= |desc| && t == desc[a..a + |t|] && t != []
      && t[0] !in " \t" && t[|t| - 1] !in " \t\r\n"
      && (forall j :: 0 <= j < a ==> desc[j] in " \t")
      && (forall j :: a + |t| <= j < |desc| ==> desc[j] in " \t\r\n")
  {
  }

  /** A line that gives no name: no description, or an empty one. */
  predicate Nameless(d: Option<string>) {
    d.None? || d.value == []
  }

  /**
   * The friendly name comes from the first line whose description is
   * non-empty (`k` is that line), and is the queue name only when no line
   * has one (`k` is -1).
   */
  lemma {:induction false} FriendlyNameSource(lines: seq<string>) returns (k: int)
    ensures -1 <= k < |lines|
    ensures k == -1 ==> (FriendlyNameOf(lines) == PrinterName
      && forall j :: 0 <= j < |lines| ==> Nameless(DescriptionOf(lines[j])))
    ensures k >= 0 ==> (DescriptionOf(lines[k]) == Some(FriendlyNameOf(lines)) && FriendlyNameOf(lines) != []
      && forall j :: 0 <= j < k ==> Nameless(DescriptionOf(lines[j])))
    decreases |lines|
  {
    if lines == [] {
      k := -1;
    } else if !Nameless(DescriptionOf(lines[0])) {
      k := 0;
    } else {
      var rest := lines[1..];
      assert FriendlyNameOf(lines) == FriendlyNameOf(rest);
      var k' := FriendlyNameSource(rest);
      k := if k' == -1 then -1 else k' + 1;
      var bound := if k' == -1 then |lines| else k;
      forall j | 0 <= j < bound ensures Nameless(DescriptionOf(lines[j])) {
        if j > 0 { assert lines[j] == rest[j - 1]; }
      }
      if k' >= 0 { assert lines[k] == rest[k']; }
    }
  }

  // ---------------------------------------------------------------
  // has_recoverable_reason_hint
  // ---------------------------------------------------------------

  /** The reasons looked for, in priority order; each is reported as itself. */
  const Needles: seq<string> := ["out of paper", "media-empty", "media empty"]

  /** The first needle from index `i` on that `text` contains. */
  function MatchFrom(text: string, i: nat): Option<string>
    decreases |Needles| - i
  {
    if i >= |Needles| then None
    else if Contains(text, Needles[i]) then Some(Needles[i])
    else MatchFrom(text, i + 1)
  }

  /** The reason the hint reports for already lower-cased text. */
  function MatchReason(text: string): Option<string> {
    MatchFrom(text, 0)
  }

  /**
   * The reported reason is needle k exactly when the text contains needle k
   * and no needle before it; nothing is reported exactly when it contains none.
   */
  lemma MatchReasonPriority(text: string)
    ensures MatchReason(text).None? <==> forall k :: 0 <= k < |Needles| ==> !Contains(text, Needles[k])
    ensures forall k :: 0 <= k < |Needles| ==>
      (MatchReason(text) == Some(Needles[k]) <==>
         Contains(text, Needles[k]) && forall j :: 0 <= j < k ==> !Contains(text, Needles[j]))
  {
    MatchFromPriority(text, 0);
  }

  lemma {:induction false} MatchFromPriority(text: string, i: nat)
    requires i <= |Needles|
    ensures MatchFrom(text, i).None? <==> forall k :: i <= k < |Needles| ==> !Contains(text, Needles[k])
    ensures forall k :: i <= k < |Needles| ==>
      (MatchFrom(text, i) == Some(Needles[k]) <==>
         Contains(text, Needles[k]) && forall j :: i <= j < k ==> !Contains(text, Needles[j]))
    decreases |Needles| - i
  {
    if i < |Needles| {
      MatchFromPriority(text, i + 1);
      assert Needles[0] != Needles[1] && Needles[0] != Needles[2] && Needles[1] != Needles[2];
    }
  }

  /** The printer's text holds `pat` somewhere, in any letter case. */
  ghost predicate HoldsIgnoringCase(text: string, pat: string) {
    exists p: nat :: OccursIgnoringCase(text, pat, p)
  }

  /**
   * The search is case-insensitive: on the lower-cased text the hint is
   * needle k exactly when the printer's own text holds needle k in any
   * letter case and no needle before it; it is nothing exactly when the
   * text holds no needle in any case.
   */
  lemma ReasonFoundInAnyCase(text: string)
    ensures MatchReason(Lower(text)).None? <==>
      forall k :: 0 <= k < |Needles| ==> !HoldsIgnoringCase(text, Needles[k])
    ensures forall k :: 0 <= k < |Needles| ==>
      (MatchReason(Lower(text)) == Some(Needles[k]) <==>
         HoldsIgnoringCase(text, Needles[k]) && forall j :: 0 <= j < k ==> !HoldsIgnoringCase(text, Needles[j]))
  {
    var l := Lower(text);
    MatchReasonPriority(l);
    forall k | 0 <= k < |Needles| ensures Contains(l, Needles[k]) <==> HoldsIgnoringCase(text, Needles[k]) {
      NeedleIsLower(k);
      ContainsLowerIff(text, Needles[k]);
    }
  }

  /** The needles are written in lower case. */
  lemma NeedleIsLower(k: nat)
    requires k < |Needles|
    ensures forall i :: 0 <= i < |Needles[k]| ==> !IsUpper(Needles[k][i])
  {
  }

  // ---------------------------------------------------------------
  // The client
  // ---------------------------------------------------------------

  class CupsClient {
    /** The injected command runner. */
    const run: Runner
    /** Every command handed to the runner, in order. */
    var issued: seq<string>

    constructor(run: Runner)
      ensures this.run == run && issued == []
    {
      this.run := run;
      issued := [];
    }

    /** `m_exec(cmd)`. */
    method Exec(cmd: string) returns (out: string)
      modifies this
      ensures issued == old(issued) + [cmd]
      ensures out == run(old(issued), cmd)
    {
      out := run(issued, cmd);
      issued := issued + [cmd];
    }

    /** `printer_state_raw` (dev: `get_printer_state_raw`). */
    method PrinterStateRaw() returns (out: string)
      modifies this
      ensures issued == old(issued) + [StateCommand]
      ensures out == run(old(issued), StateCommand)
    {
      out := Exec(StateCommand);
    }

    /** `printer_long_raw` (dev: `get_printer_long_raw`). */
    method PrinterLongRaw() returns (out: string)
      modifies this
      ensures issued == old(issued) + [LongCommand]
      ensures out == run(old(issued), LongCommand)
    {
      out := Exec(LongCommand);
    }

    /** `get_printer_friendly_name`: the line loop with its early return. */
    method FriendlyName() returns (name: string)
      modifies this
      ensures issued == old(issued) + [LongCommand]
      ensures name == FriendlyNameOf(Lines(run(old(issued), LongCommand)))
    {
      var out := PrinterLongRaw();
      var lines := Lines(out);
      for i := 0 to |lines|
        invariant issued == old(issued) + [LongCommand]
        invariant FriendlyNameOf(lines[i..]) == FriendlyNameOf(lines)
      {
        var desc := LineDescription(lines[i]);
        assert FriendlyNameOf(lines[i..])
          == if desc.Some? && desc.value != [] then desc.value else FriendlyNameOf(lines[i + 1..])
        by {
          assert lines[i..][0] == lines[i] && lines[i..][1..] == lines[i + 1..];
        }
        if desc.Some? && desc.value != [] {
          return desc.value;
        }
      }
      assert lines[|lines|..] == [];
      name := PrinterName;
    }

    /** One pass of the line loop: the trimmed text after "Description:", if the line has it. */
    static method LineDescription(line: string) returns (desc: Option<string>)
      ensures desc == DescriptionOf(line)
    {
      var pos := FindFrom(line, DescriptionKey, 0);
      if pos.None? {
        return None;
      }
      var d := line[pos.value + |DescriptionKey|..];
      ghost var raw := d;
      var l := FirstNotIn(d, " \t", 0);
      var r := LastNotIn(d, " \t\r\n");
      if l.Some? && r.Some? {
        assert d[r.value] !in " \t";
        d := d[l.value..r.value + 1];
      }
      assert d == TrimDescription(raw);
      desc := Some(d);
    }

    /** `has_recoverable_reason_hint`: the reason found (the source's `true` and `*matched_reason`), or None. */
    method HasRecoverableReasonHint() returns (hint: Option<string>)
      modifies this
      ensures issued == old(issued) + [LongCommand]
      ensures hint == MatchReason(Lower(run(old(issued), LongCommand)))
    {
      var out := PrinterLongRaw();
      var lowered := Lower(out);
      for i := 0 to |Needles|
        invariant MatchFrom(lowered, i) == MatchReason(lowered)
      {
        if Contains(lowered, Needles[i]) {
          return Some(Needles[i]);
        }
      }
      hint := None;
    }

    /** `queue_disabled` (dev: `is_queue_disabled`). */
    method QueueDisabled() returns (disabled: bool)
      modifies this
      ensures issued == old(issued) + [StateCommand]
      ensures disabled == Contains(run(old(issued), StateCommand), "disabled")
    {
      var out := PrinterStateRaw();
      disabled := Contains(out, "disabled");
    }

    /** `get_jobs`. */
    method GetJobs(ed: Edition) returns (jobs: seq<PrintJob>)
      modifies this
      ensures (jobs, issued) == QueryJobs(run, old(issued), ed)
    {
      var out := Exec(ListNotCompleted);
      if Contains(out, "Unknown option") || Contains(out, "invalid option") {
        out := Exec(ListAll);
      }
      jobs := ParseLpstatJobs(out, ed);
    }

    /** `cancel_job`. */
    method CancelJob(jobId: string, ed: Edition)
      modifies this
      ensures issued == old(issued) + [CancelCommand(jobId, ed)]
    {
      if ed == Dev {
        var quoted := Shell.ShellEscape(jobId);
        var _ := Exec("cancel " + quoted + " 2>&1");
      } else {
        assert "cancel '" + jobId + "' 2>&1" == CancelCommand(jobId, ed);
        var _ := Exec("cancel '" + jobId + "' 2>&1");
      }
    }

    /** `cancel_all`. */
    method CancelAll()
      modifies this
      ensures issued == old(issued) + [CancelAllCommand]
    {
      var _ := Exec(CancelAllCommand);
    }

    /** `cancel_all_from_user`: list the jobs, then one `cancel_job` per job `user` owns. */
    method CancelAllFromUser(user: string, ed: Edition)
      modifies this
      ensures var (jobs, log) := QueryJobs(run, old(issued), ed);
        issued == log + Cancels(jobs, user, ed)
    {
      var jobs := GetJobs(ed);
      CancelOwned(jobs, user, ed);
    }

    /** The loop of `cancel_all_from_user` over the listed jobs. */
    method CancelOwned(jobs: seq<PrintJob>, user: string, ed: Edition)
      modifies this
      ensures issued == old(issued) + Cancels(jobs, user, ed)
    {
      for i := 0 to |jobs|
        invariant issued == old(issued) + Cancels(jobs[..i], user, ed)
      {
        assert Cancels(jobs[..i + 1], user, ed)
          == Cancels(jobs[..i], user, ed) + (if jobs[i].user == user then [CancelCommand(jobs[i].jobId, ed)] else [])
        by {
          assert jobs[..i + 1] == jobs[..i] + [jobs[i]];
          CancelsSnoc(jobs[..i], jobs[i], user, ed);
        }
        if jobs[i].user == user {
          CancelJob(jobs[i].jobId, ed);
        }
      }
      assert jobs[..|jobs|] == jobs;
    }

    /** `pause_queue`. */
    method PauseQueue()
      modifies this
      ensures issued == old(issued) + [PauseCommand]
    {
      var _ := Exec(PauseCommand);
    }

    /** `resume_queue`. */
    method ResumeQueue()
      modifies this
      ensures issued == old(issued) + [ResumeCommand]
    {
      var _ := Exec(ResumeCommand);
    }
  }
}
