/**
 * `parse_lpstat_jobs`: turns `lpstat -o -l` text into print-job records.
 *
 * A non-indented, non-blank line is a header: its first two tokens are the
 * job id and the user, the trimmed rest is the status, and a timestamp is
 * looked for in the status.  An indented non-blank line adds its trimmed text
 * to the open record's file label, joined by " | ".  A blank line closes the
 * open record; end of input closes it too.
 *
 * The loop of the source is `ParseLpstatJobs`.  `Blocks` is an independent
 * description of the listing's layout (each header line with the run of
 * continuation lines that follows it) and `Records` the jobs those blocks
 * describe; `Step`/`Run` is the state machine the loop follows, and
 * `ParseMatchesBlocks` shows that it recovers exactly the blocks.
 */
module Lpstat {
  import opened Wrappers
  import opened Config
  import opened Text
  import opened Timestamps
  import Seqs

  datatype PrintJob = PrintJob(jobId: string, user: string, file: string, status: string,
                               submittedAt: Option<DateTime>)

  /** `PrintJob{}` */
  const EmptyJob: PrintJob := PrintJob("", "", "", "", None)

  const Separator: string := " | "

  // ---------------------------------------------------------------
  // Line shapes
  // ---------------------------------------------------------------

  /** `trim_copy(line).empty()` */
  predicate IsBlank(line: string) {
    AllSpace(line)
  }

  /** Starts with whitespace. */
  predicate IsIndented(line: string) {
    |line| > 0 && IsSpace(line[0])
  }

  predicate IsHeader(line: string) {
    !IsBlank(line) && !IsIndented(line)
  }

  predicate IsContinuation(line: string) {
    !IsBlank(line) && IsIndented(line)
  }

  /**
   * The record a header line opens: `ls >> job_id >> user`, then the trimmed
   * rest of the line as status, and the timestamp found in that status.
   */
  function HeaderJob(line: string, ed: Edition): PrintJob {
    var first := ReadToken(line);
    var second := ReadToken(first.1);
    var rest := Trim(second.1);
    PrintJob(first.0, second.0, "", rest, FirstDateTime(rest, ed))
  }

  /** `if (!file.empty()) file += " | "; file += cont;` for a non-empty fragment. */
  function AddFragment(file: string, cont: string): string {
    if cont == [] then file
    else if file == [] then cont
    else file + Separator + cont
  }

  // ---------------------------------------------------------------
  // Reference description: blocks of lines, one per header
  // ---------------------------------------------------------------

  /** A header line and the continuation lines that directly follow it. */
  datatype Block = Block(header: string, conts: seq<string>)

  /** How many continuation lines `lines` starts with. */
  function ContinuationRun(lines: seq<string>): (n: nat)
    ensures n <= |lines|
    ensures forall k :: 0 <= k < n ==> IsContinuation(lines[k])
    ensures n < |lines| ==> !IsContinuation(lines[n])
  {
    if lines != [] && IsContinuation(lines[0]) then 1 + ContinuationRun(lines[1..]) else 0
  }

  /**
   * The listing's blocks, in order: each header line with the maximal run of
   * continuation lines after it.  Blank lines, and indented lines with no
   * header above them, belong to no block.
   */
  function Blocks(lines: seq<string>): seq<Block>
    decreases |lines|
  {
    if lines == [] then []
    else if IsHeader(lines[0]) then
      var n := ContinuationRun(lines[1..]);
      [Block(lines[0], lines[1..1 + n])] + Blocks(lines[1 + n..])
    else Blocks(lines[1..])
  }

  /** The fragments joined with " | ". */
  function Join(parts: seq<string>): string {
    if parts == [] then []
    else if |parts| == 1 then parts[0]
    else Join(parts[..|parts| - 1]) + Separator + parts[|parts| - 1]
  }

  /** The trimmed text of each line. */
  function Trimmed(lines: seq<string>): (r: seq<string>)
    ensures |r| == |lines| && forall k :: 0 <= k < |lines| ==> r[k] == Trim(lines[k])
  {
    seq(|lines|, k requires 0 <= k < |lines| => Trim(lines[k]))
  }

  /** The file label continuation lines give: their trimmed text joined by " | ". */
  function Label(conts: seq<string>): string {
    Join(Trimmed(conts))
  }

  /** The job a block describes: its header's fields, and the label of its continuation lines. */
  function JobOf(b: Block, ed: Edition): PrintJob {
    HeaderJob(b.header, ed).(file := Label(b.conts))
  }

  /** `JobOf` for one edition, as a function value. */
  function JobReader(ed: Edition): Block -> PrintJob {
    b => JobOf(b, ed)
  }

  /** The jobs of a sequence of blocks, in order. */
  function JobsOf(bs: seq<Block>, ed: Edition): seq<PrintJob> {
    Seqs.Map(JobReader(ed), bs)
  }

  /** The print jobs an `lpstat -o -l` listing describes. */
  function Records(lines: seq<string>, ed: Edition): seq<PrintJob> {
    JobsOf(Blocks(lines), ed)
  }

  // ---------------------------------------------------------------
  // The loop's state machine
  // ---------------------------------------------------------------

  /** What the loop has seen so far: the closed blocks and the open one, if any. */
  datatype ParseState = ParseState(blocks: seq<Block>, open: Option<Block>)

  const Initial: ParseState := ParseState([], None)

  /** `flush()`: close the open block. */
  function Flush(st: ParseState): ParseState {
    ParseState(if st.open.Some? then st.blocks + [st.open.value] else st.blocks, None)
  }

  /** One iteration of the line loop. */
  function Step(st: ParseState, line: string): ParseState {
    if IsBlank(line) then Flush(st)
    else if !IsIndented(line) then ParseState(Flush(st).blocks, Some(Block(line, [])))
    else if st.open.Some? then st.(open := Some(st.open.value.(conts := st.open.value.conts + [line])))
    else st
  }

  function Run(st: ParseState, lines: seq<string>): ParseState
    decreases |lines|
  {
    if lines == [] then st else Run(Step(st, lines[0]), lines[1..])
  }

  /** `parse_lpstat_jobs`, as written: a line loop over `current`, `active` and `jobs`. */
  method ParseLpstatJobs(text: string, ed: Edition) returns (jobs: seq<PrintJob>)
    ensures jobs == Records(Lines(text), ed)
  {
    var lines := Lines(text);
    jobs := [];
    var current := EmptyJob;
    var active := false;
    ghost var st := Initial;

    for i := 0 to |lines|
      invariant Run(st, lines[i..]) == Run(Initial, lines)
      invariant Tracks(st, jobs, current, active, ed)
    {
      var line := lines[i];
      assert Run(st, lines[i..]) == Run(Step(st, line), lines[i + 1..]) by {
        assert lines[i..][0] == line && lines[i..][1..] == lines[i + 1..];
      }
      jobs, current, active := ParseLine(jobs, current, active, line, ed, st);
      st := Step(st, line);
    }

    FlushTracked(st, jobs, current, active, ed);
    jobs, current, active := FlushCurrent(jobs, current, active);
    ParseMatchesBlocks(lines);
  }

  /** One pass of the loop body on `line`. */
  method ParseLine(jobs: seq<PrintJob>, current: PrintJob, active: bool, line: string, ed: Edition, ghost st: ParseState)
    returns (jobs': seq<PrintJob>, current': PrintJob, active': bool)
    requires Tracks(st, jobs, current, active, ed)
    ensures Tracks(Step(st, line), jobs', current', active', ed)
  {
    var trimmed := TrimCopy(line);
    if trimmed == [] {
      FlushTracked(st, jobs, current, active, ed);
      jobs', current', active' := FlushCurrent(jobs, current, active);
      return;
    }

    var continuation := |line| > 0 && IsSpace(line[0]);
    if !continuation {
      FlushTracked(st, jobs, current, active, ed);
      jobs', current', active' := FlushCurrent(jobs, current, active);
      active' := true;
      current' := ReadHeader(line, ed);
      OpenTracked(st, jobs', line, current', ed);
    } else if active {
      jobs', active' := jobs, active;
      current' := AppendContinuation(current, line);
      ExtendTracked(st, jobs, current, line, ed);
    } else {
      jobs', current', active' := jobs, current, active;
    }
  }

  /** The `flush` lambda: emit the open job if it has an id, then reset. */
  method FlushCurrent(jobs: seq<PrintJob>, current: PrintJob, active: bool)
    returns (jobs': seq<PrintJob>, current': PrintJob, active': bool)
    ensures jobs' == (if active && current.jobId != [] then jobs + [current] else jobs)
    ensures current' == EmptyJob && !active'
  {
    jobs' := jobs;
    if active && current.jobId != [] { jobs' := jobs' + [current]; }
    current' := EmptyJob;
    active' := false;
  }

  /** A header line: `ls >> job_id >> user`, the trimmed rest as status, and the timestamp found in it. */
  method ReadHeader(line: string, ed: Edition) returns (job: PrintJob)
    ensures job == HeaderJob(line, ed)
  {
    var first := ReadToken(line);
    var second := ReadToken(first.1);
    var rest := TrimCopy(second.1);
    var at := ParseDateTimeFromLine(rest, ed);
    job := PrintJob(first.0, second.0, EmptyJob.file, rest, at);
  }

  /** A continuation line: its trimmed text joins the file label, after " | " if the label is not empty. */
  method AppendContinuation(current: PrintJob, line: string) returns (next: PrintJob)
    ensures next == current.(file := AddFragment(current.file, Trim(line)))
  {
    var cont := TrimCopy(line);
    var file := current.file;
    if cont != [] {
      if file != [] { file := file + Separator; } else { Seqs.AppendEmpty(cont); }
      file := file + cont;
    }
    assert file == AddFragment(current.file, cont);
    next := current.(file := file);
  }

  /** The loop's variables hold what the state machine's state `st` says they hold. */
  ghost predicate Tracks(st: ParseState, jobs: seq<PrintJob>, current: PrintJob, active: bool, ed: Edition) {
    jobs == JobsOf(st.blocks, ed)
    && active == st.open.Some?
    && (active ==> IsHeader(st.open.value.header)
                   && (forall k :: 0 <= k < |st.open.value.conts| ==> IsContinuation(st.open.value.conts[k]))
                   && current == JobOf(st.open.value, ed) && current.jobId != [])
  }

  /** `flush()` emits the open job exactly when the state machine closes a block. */
  lemma FlushTracked(st: ParseState, jobs: seq<PrintJob>, current: PrintJob, active: bool, ed: Edition)
    requires Tracks(st, jobs, current, active, ed)
    ensures (if active && current.jobId != [] then jobs + [current] else jobs) == JobsOf(Flush(st).blocks, ed)
  {
    JobsOfSnoc(st.blocks, st.open, ed);
  }

  /** A header line opens the job `HeaderJob` reads from it. */
  lemma OpenTracked(st: ParseState, jobs: seq<PrintJob>, line: string, current: PrintJob, ed: Edition)
    requires IsHeader(line) && jobs == JobsOf(Flush(st).blocks, ed)
    requires current == HeaderJob(line, ed)
    ensures Tracks(Step(st, line), jobs, current, true, ed)
  {
    HeaderHasJobId(line, ed);
    assert Label([]) == [];
  }

  /** A continuation line extends the open job's label. */
  lemma ExtendTracked(st: ParseState, jobs: seq<PrintJob>, current: PrintJob, line: string, ed: Edition)
    requires Tracks(st, jobs, current, true, ed) && IsContinuation(line)
    ensures Tracks(Step(st, line), jobs, current.(file := AddFragment(current.file, Trim(line))), true, ed)
  {
    var b := st.open.value;
    var b' := b.(conts := b.conts + [line]);
    assert Step(st, line) == ParseState(st.blocks, Some(b'));
    ExtendConts(b.conts, line);
    ExtendJob(b, current, line, ed);
  }

  lemma ExtendConts(conts: seq<string>, line: string)
    requires IsContinuation(line) && forall k :: 0 <= k < |conts| ==> IsContinuation(conts[k])
    ensures forall k :: 0 <= k < |conts + [line]| ==> IsContinuation((conts + [line])[k])
  {
    forall k | 0 <= k < |conts + [line]| ensures IsContinuation((conts + [line])[k]) {
      if k < |conts| { assert (conts + [line])[k] == conts[k]; }
    }
  }

  /** The job of the extended block is the open job with the fragment added to its label. */
  lemma ExtendJob(b: Block, current: PrintJob, line: string, ed: Edition)
    requires current == JobOf(b, ed) && IsContinuation(line)
    requires forall k :: 0 <= k < |b.conts| ==> IsContinuation(b.conts[k])
    ensures JobOf(b.(conts := b.conts + [line]), ed) == current.(file := AddFragment(current.file, Trim(line)))
  {
    LabelExtend(b.conts, line);
    SameHeaderJob(b, b.(conts := b.conts + [line]), ed);
  }

  /** Two blocks with the same header describe the same job up to the file label. */
  lemma SameHeaderJob(b: Block, b': Block, ed: Edition)
    requires b.header == b'.header
    ensures JobOf(b', ed) == JobOf(b, ed).(file := Label(b'.conts))
  {
  }

  // ---------------------------------------------------------------
  // The loop recovers the blocks
  // ---------------------------------------------------------------

  /** With no block open, the loop closes exactly the reference blocks after those it already has. */
  lemma {:induction false} RunIdle(st: ParseState, lines: seq<string>)
    requires st.open.None?
    ensures Flush(Run(st, lines)).blocks == st.blocks + Blocks(lines)
    decreases |lines|, 0
  {
    if lines != [] {
      var line := lines[0];
      var next := Step(st, line);
      assert Run(st, lines) == Run(next, lines[1..]);
      if IsHeader(line) {
        RunOpen(next, lines[1..]);
        var n := ContinuationRun(lines[1..]);
        assert next.blocks == st.blocks;
        assert [] + lines[1..][..n] == lines[1..1 + n];
        assert lines[1..][n..] == lines[1 + n..];
        assert Blocks(lines) == [Block(line, lines[1..1 + n])] + Blocks(lines[1 + n..]);
      } else {
        RunIdle(next, lines[1..]);
      }
    }
  }

  /**
   * With a block open, the loop closes that block extended by the leading
   * continuation lines, then the reference blocks of the remaining lines.
   */
  lemma {:induction false} RunOpen(st: ParseState, lines: seq<string>)
    requires st.open.Some?
    ensures OpenOutcome(st, lines)
    decreases |lines|, 1
  {
    var b := st.open.value;
    if lines == [] {
      assert b.(conts := b.conts + []) == b;
    } else {
      var line := lines[0];
      var next := Step(st, line);
      assert Run(st, lines) == Run(next, lines[1..]);
      if !IsContinuation(line) {
        assert b.(conts := b.conts + lines[..0]) == b;
        assert lines[0..] == lines;
        assert next.blocks == st.blocks + [b];
        if IsBlank(line) {
          RunIdle(next, lines[1..]);
        } else {
          RunOpen(next, lines[1..]);
          OpenAtHeader(st, lines);
        }
      } else {
        RunOpen(next, lines[1..]);
        OpenAtContinuation(st, lines);
      }
    }
  }

  /** What `RunOpen` states about running from `st`. */
  ghost predicate OpenOutcome(st: ParseState, lines: seq<string>)
    requires st.open.Some?
  {
    var n := ContinuationRun(lines); var b := st.open.value;
    Flush(Run(st, lines)).blocks == st.blocks + [b.(conts := b.conts + lines[..n])] + Blocks(lines[n..])
  }

  /** The header case of `RunOpen`: the open block closes and the header opens the next one. */
  lemma OpenAtHeader(st: ParseState, lines: seq<string>)
    requires st.open.Some? && lines != [] && IsHeader(lines[0])
    requires Step(st, lines[0]).open.Some? && OpenOutcome(Step(st, lines[0]), lines[1..])
    ensures OpenOutcome(st, lines)
  {
    var b := st.open.value;
    var line := lines[0];
    var next := Step(st, line);
    assert Run(st, lines) == Run(next, lines[1..]);
    assert b.(conts := b.conts + lines[..0]) == b;
    assert lines[0..] == lines;
    assert next.blocks == st.blocks + [b];
    var m := ContinuationRun(lines[1..]);
    assert [] + lines[1..][..m] == lines[1..1 + m];
    assert lines[1..][m..] == lines[1 + m..];
    BlocksAtHeader(lines);
  }

  /** The continuation case of `RunOpen`: the line joins the open block. */
  lemma OpenAtContinuation(st: ParseState, lines: seq<string>)
    requires st.open.Some? && lines != [] && IsContinuation(lines[0])
    requires Step(st, lines[0]).open.Some? && OpenOutcome(Step(st, lines[0]), lines[1..])
    ensures OpenOutcome(st, lines)
  {
    var b := st.open.value;
    var line := lines[0];
    var next := Step(st, line);
    assert Run(st, lines) == Run(next, lines[1..]);
    var n := ContinuationRun(lines);
    var b' := next.open.value;
    assert b' == b.(conts := b.conts + [line]);
    assert lines[1..][..n - 1] == lines[1..n];
    assert lines[1..][n - 1..] == lines[n..];
    assert b.conts + [line] + lines[1..n] == b.conts + lines[..n];
    assert b'.(conts := b'.conts + lines[1..n]) == b.(conts := b.conts + lines[..n]);
  }

  /** Run over the whole listing, the loop closes exactly the listing's blocks. */
  lemma ParseMatchesBlocks(lines: seq<string>)
    ensures Flush(Run(Initial, lines)).blocks == Blocks(lines)
  {
    RunIdle(Initial, lines);
  }

  // ---------------------------------------------------------------
  // From blocks to jobs
  // ---------------------------------------------------------------

  /** The header line's first token is never empty, so the source's `!job_id.empty()` test always passes. */
  lemma HeaderHasJobId(line: string, ed: Edition)
    requires IsHeader(line)
    ensures HeaderJob(line, ed).jobId != []
  {
    ReadTokenShape(line);
  }

  lemma JobsOfAppend(a: seq<Block>, b: seq<Block>, ed: Edition)
    ensures JobsOf(a + b, ed) == JobsOf(a, ed) + JobsOf(b, ed)
  {
    Seqs.MapAppend(JobReader(ed), a, b);
  }

  /** Closing the open block emits its job exactly when one is open. */
  lemma JobsOfSnoc(bs: seq<Block>, open: Option<Block>, ed: Edition)
    ensures open.Some? ==> JobsOf(bs + [open.value], ed) == JobsOf(bs, ed) + [JobOf(open.value, ed)]
  {
    if open.Some? {
      JobsOfAppend(bs, [open.value], ed);
      assert JobsOf([open.value], ed) == [JobReader(ed)(open.value)];
    }
  }

  lemma {:induction false} JoinSnoc(parts: seq<string>, p: string)
    requires parts != []
    ensures Join(parts + [p]) == Join(parts) + Separator + p
  {
    assert (parts + [p])[..|parts|] == parts;
  }

  lemma {:induction false} JoinNonEmpty(parts: seq<string>)
    requires parts != [] && forall k :: 0 <= k < |parts| ==> parts[k] != []
    ensures Join(parts) != []
  {
    if |parts| > 1 {
      assert parts[|parts| - 1] != [];
    }
  }

  /**
   * One more continuation line extends the label as the loop does it: its
   * trimmed text, after " | " when the label already has text.
   */
  lemma LabelExtend(conts: seq<string>, line: string)
    requires IsContinuation(line)
    requires forall k :: 0 <= k < |conts| ==> IsContinuation(conts[k])
    ensures Label(conts + [line]) == AddFragment(Label(conts), Trim(line))
  {
    var parts := Trimmed(conts);
    assert Trimmed(conts + [line]) == parts + [Trim(line)];
    if parts != [] {
      JoinNonEmpty(parts);
      JoinSnoc(parts, Trim(line));
    } else {
      assert Join(parts + [Trim(line)]) == Trim(line);
    }
  }

  // ---------------------------------------------------------------
  // Properties of the listing's blocks and jobs
  // ---------------------------------------------------------------

  /** The header lines, in listing order. */
  function Headers(lines: seq<string>): seq<string> {
    if lines == [] then []
    else if IsHeader(lines[0]) then [lines[0]] + Headers(lines[1..])
    else Headers(lines[1..])
  }

  lemma {:induction false} HeadersSkipContinuations(lines: seq<string>, n: nat)
    requires n <= |lines| && forall k :: 0 <= k < n ==> IsContinuation(lines[k])
    ensures Headers(lines) == Headers(lines[n..])
    decreases n
  {
    if n > 0 {
      HeadersSkipContinuations(lines[1..], n - 1);
      assert lines[1..][n - 1..] == lines[n..];
    }
  }

  /**
   * Exactly one block per header line, in listing order, and every line of a
   * block after its header is a continuation line.
   */
  lemma {:induction false} OneBlockPerHeader(lines: seq<string>)
    ensures |Blocks(lines)| == |Headers(lines)|
    ensures forall k :: 0 <= k < |Headers(lines)| ==> Blocks(lines)[k].header == Headers(lines)[k]
    ensures forall k, j :: 0 <= k < |Blocks(lines)| && 0 <= j < |Blocks(lines)[k].conts| ==>
      IsContinuation(Blocks(lines)[k].conts[j])
    decreases |lines|
  {
    if lines != [] {
      if IsHeader(lines[0]) {
        var n := ContinuationRun(lines[1..]);
        OneBlockPerHeader(lines[1 + n..]);
        HeadersSkipContinuations(lines[1..], n);
        assert lines[1..][n..] == lines[1 + n..];
        var b := Block(lines[0], lines[1..1 + n]);
        assert forall j :: 0 <= j < |b.conts| ==> b.conts[j] == lines[1..][j];
      } else {
        OneBlockPerHeader(lines[1..]);
      }
    }
  }

  lemma JobsOfShape(bs: seq<Block>, ed: Edition)
    ensures |JobsOf(bs, ed)| == |bs|
    ensures forall k :: 0 <= k < |bs| ==> JobsOf(bs, ed)[k] == JobOf(bs[k], ed)
  {
    Seqs.MapIndex(JobReader(ed), bs);
  }

  /**
   * One job per header line, in listing order: the k-th job carries the job
   * id, user, status and timestamp the k-th header line gives, and its job
   * id is never empty.
   */
  lemma OneRecordPerHeader(lines: seq<string>, ed: Edition)
    ensures |Records(lines, ed)| == |Headers(lines)|
    ensures forall k :: 0 <= k < |Headers(lines)| ==>
      Records(lines, ed)[k] == HeaderJob(Headers(lines)[k], ed).(file := Records(lines, ed)[k].file)
      && Records(lines, ed)[k].jobId != []
  {
    OneBlockPerHeader(lines);
    forall k | 0 <= k < |Headers(lines)|
      ensures Records(lines, ed)[k] == HeaderJob(Headers(lines)[k], ed).(file := Records(lines, ed)[k].file)
      ensures Records(lines, ed)[k].jobId != []
    {
      RecordOfHeader(lines, ed, k);
    }
  }

  lemma RecordOfHeader(lines: seq<string>, ed: Edition, k: nat)
    requires |Blocks(lines)| == |Headers(lines)|
    requires k < |Headers(lines)| && Blocks(lines)[k].header == Headers(lines)[k]
    ensures Records(lines, ed)[k] == HeaderJob(Headers(lines)[k], ed).(file := Records(lines, ed)[k].file)
    ensures Records(lines, ed)[k].jobId != []
  {
    var b := Blocks(lines)[k];
    var h := Headers(lines)[k];
    assert Records(lines, ed)[k] == JobOf(b, ed) by {
      JobsOfShape(Blocks(lines), ed);
    }
    HeadersAreHeaders(lines, k);
    HeaderHasJobId(h, ed);
  }

  lemma {:induction false} HeadersAreHeaders(lines: seq<string>, k: nat)
    requires k < |Headers(lines)|
    ensures IsHeader(Headers(lines)[k])
    decreases |lines|
  {
    if lines != [] {
      if IsHeader(lines[0]) {
        if k > 0 { HeadersAreHeaders(lines[1..], k - 1); }
      } else {
        HeadersAreHeaders(lines[1..], k);
      }
    }
  }

  /** `ReadToken` takes exactly the first of the tokens, and leaves the rest. */
  lemma TokensOfHeader(line: string)
    requires IsHeader(line)
    ensures var first := ReadToken(line); var second := ReadToken(first.1);
      first.0 != []
      && (second.0 == [] ==> Tokens(line) == [first.0] && second.1 == [])
      && (second.0 != [] ==> Tokens(line) == [first.0, second.0] + Tokens(second.1))
  {
    var first := ReadToken(line);
    var second := ReadToken(first.1);
    ReadTokenShape(line);
    ReadTokenShape(first.1);
    TokensStep(line);
    TokensStep(first.1);
    Seqs.Regroup(first.0, second.0, Tokens(second.1));
  }

  /**
   * A header line's tokens are its job id, then its user (absent when the
   * line has a single token, and then the status is empty too), then the
   * tokens of its status, the trimmed remainder; the job id is never empty.
   */
  lemma HeaderFields(line: string, ed: Edition)
    requires IsHeader(line)
    ensures var job := HeaderJob(line, ed);
      job.jobId != []
      && Tokens(line) == [job.jobId] + (if job.user == [] then [] else [job.user]) + Tokens(job.status)
      && (job.user == [] ==> job.status == [])
  {
    var first := ReadToken(line);
    var second := ReadToken(first.1);
    var job := HeaderJob(line, ed);
    assert job.jobId == first.0 && job.user == second.0 && job.status == Trim(second.1);
    var rest := Tokens(job.status);
    assert rest == Tokens(second.1) by { TokensOfTrim(second.1); }
    TokensOfHeader(line);
    assert second.0 == [] ==> rest == [] && job.status == [];
    assert Tokens(line) == [first.0] + (if second.0 == [] then [] else [second.0]) + rest by {
      Seqs.Regroup(first.0, second.0, rest);
    }
  }

  lemma {:induction false} RunStopsAtBoundary(a: seq<string>, b: seq<string>)
    requires b == [] || !IsContinuation(b[0])
    ensures ContinuationRun(a + b) == ContinuationRun(a)
    decreases |a|
  {
    if a != [] {
      assert (a + b)[0] == a[0];
      if IsContinuation(a[0]) {
        assert (a + b)[1..] == a[1..] + b;
        RunStopsAtBoundary(a[1..], b);
      }
    } else {
      assert a + b == b;
    }
  }

  /** Where the second part starts with a line that is not a continuation, the two parts are parsed independently. */
  lemma {:induction false} SplitAtBoundary(a: seq<string>, b: seq<string>)
    requires b == [] || !IsContinuation(b[0])
    ensures Blocks(a + b) == Blocks(a) + Blocks(b)
    decreases |a|
  {
    if a == [] {
      Seqs.AppendEmpty(b);
      Seqs.AppendEmpty(Blocks(b));
    } else if IsHeader(a[0]) {
      var n := ContinuationRun(a[1..]);
      SplitAtBoundary(a[1 + n..], b);
      SplitAfterHeader(a, b);
    } else {
      SplitAtBoundary(a[1..], b);
      SplitAfterOther(a, b);
    }
  }

  /** The case of `SplitAtBoundary` where the first line belongs to no block. */
  lemma SplitAfterOther(a: seq<string>, b: seq<string>)
    requires a != [] && !IsHeader(a[0])
    requires Blocks(a[1..] + b) == Blocks(a[1..]) + Blocks(b)
    ensures Blocks(a + b) == Blocks(a) + Blocks(b)
  {
    var ab := a + b;
    assert ab[0] == a[0];
    assert ab[1..] == a[1..] + b;
  }

  /** The header case of `SplitAtBoundary`. */
  lemma SplitAfterHeader(a: seq<string>, b: seq<string>)
    requires a != [] && IsHeader(a[0]) && (b == [] || !IsContinuation(b[0]))
    requires var n := ContinuationRun(a[1..]); Blocks(a[1 + n..] + b) == Blocks(a[1 + n..]) + Blocks(b)
    ensures Blocks(a + b) == Blocks(a) + Blocks(b)
  {
    var n := ContinuationRun(a[1..]);
    var blk := Block(a[0], a[1..1 + n]);
    var rest := a[1 + n..];
    HeaderBlockOfAppend(a, b);
    assert Blocks(a + b) == [blk] + Blocks(rest + b);
    assert Blocks(a) == [blk] + Blocks(rest);
    ConsAppend(blk, Blocks(rest), Blocks(b));
  }

  /** A header at the front of `a` takes the same continuation lines in `a + b` as in `a`. */
  lemma HeaderBlockOfAppend(a: seq<string>, b: seq<string>)
    requires a != [] && IsHeader(a[0]) && (b == [] || !IsContinuation(b[0]))
    ensures var n := ContinuationRun(a[1..]);
      Blocks(a + b) == [Block(a[0], a[1..1 + n])] + Blocks(a[1 + n..] + b)
      && Blocks(a) == [Block(a[0], a[1..1 + n])] + Blocks(a[1 + n..])
  {
    var ab := a + b;
    var n := ContinuationRun(a[1..]);
    assert ab[0] == a[0];
    assert ab[1..] == a[1..] + b;
    RunStopsAtBoundary(a[1..], b);
    assert ab[1..1 + n] == a[1..1 + n];
    assert ab[1 + n..] == a[1 + n..] + b;
    BlocksAtHeader(ab);
    BlocksAtHeader(a);
  }

  /** `Blocks` unfolded at a header line. */
  lemma BlocksAtHeader(lines: seq<string>)
    requires lines != [] && IsHeader(lines[0])
    ensures var n := ContinuationRun(lines[1..]);
      Blocks(lines) == [Block(lines[0], lines[1..1 + n])] + Blocks(lines[1 + n..])
  {
  }

  lemma ConsAppend(blk: Block, x: seq<Block>, y: seq<Block>)
    ensures [blk] + (x + y) == ([blk] + x) + y
  {
  }

  /** A blank line closes whatever job is open: the listings before and after it parse independently. */
  lemma BlankLineSeparates(before: seq<string>, blank: string, after: seq<string>, ed: Edition)
    requires IsBlank(blank)
    ensures Records(before + [blank] + after, ed) == Records(before, ed) + Records(after, ed)
  {
    SplitAtBoundary(before, [blank] + after);
    assert before + [blank] + after == before + ([blank] + after);
    assert ([blank] + after)[1..] == after;
    JobsOfAppend(Blocks(before), Blocks(after), ed);
  }

  /** A header line also closes the open job. */
  lemma HeaderLineSeparates(before: seq<string>, header: string, after: seq<string>, ed: Edition)
    requires IsHeader(header)
    ensures Records(before + [header] + after, ed) == Records(before, ed) + Records([header] + after, ed)
  {
    SplitAtBoundary(before, [header] + after);
    assert before + [header] + after == before + ([header] + after);
    JobsOfAppend(Blocks(before), Blocks([header] + after), ed);
  }

  /** Indented lines before the first header (or right after a blank line) are dropped. */
  lemma {:induction false} OrphanContinuationsDropped(orphans: seq<string>, rest: seq<string>, ed: Edition)
    requires forall k :: 0 <= k < |orphans| ==> !IsHeader(orphans[k])
    ensures Records(orphans + rest, ed) == Records(rest, ed)
    decreases |orphans|
  {
    if orphans != [] {
      assert (orphans + rest)[0] == orphans[0];
      assert (orphans + rest)[1..] == orphans[1..] + rest;
      OrphanContinuationsDropped(orphans[1..], rest, ed);
    } else {
      assert orphans + rest == rest;
    }
  }

  /**
   * A header followed by continuation lines and then the end, a blank line
   * or another header becomes one job whose file label is the trimmed
   * continuation lines joined by " | ".
   */
  lemma FileLabelOfBlock(header: string, conts: seq<string>, rest: seq<string>, ed: Edition)
    requires IsHeader(header)
    requires forall k :: 0 <= k < |conts| ==> IsContinuation(conts[k])
    requires rest == [] || !IsContinuation(rest[0])
    ensures Records([header] + conts + rest, ed)
      == [HeaderJob(header, ed).(file := Join(Trimmed(conts)))] + Records(rest, ed)
  {
    var lines := [header] + conts + rest;
    assert lines[0] == header;
    assert lines[1..] == conts + rest;
    RunStopsAtBoundary(conts, rest);
    assert ContinuationRun(conts) == |conts|;
    assert lines[1..1 + |conts|] == conts;
    assert lines[1 + |conts|..] == rest;
    assert Blocks(lines) == [Block(header, conts)] + Blocks(rest);
  }
}
