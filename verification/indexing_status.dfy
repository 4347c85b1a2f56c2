/** The indexing status record of the API server and its transitions: the
    progress callback, the start of a background indexing run, and its end
    with a returned result or a raised exception. The indexer itself is
    foreign code: a run enters the model as the progress reports it makes
    and the outcome it ends with. Transitions are sequential; concurrent
    readers of the record are not modelled. */
module IndexingStatus {
  import opened Wrappers

  /** What the last finished run left behind: the indexer's result, or the
      message of the exception it raised (`{"error": str(e)}`). */
  datatype LastResult<R> = Completed(result: R) | Failed(error: string)

  /** The status record. `R` is the type of the indexer's result. */
  datatype Status<R> = Status(
    isIndexing: bool,
    currentFile: string,
    progress: int,
    total: int,
    lastResult: Option<LastResult<R>>)

  /** One call of the progress callback: the file being processed, and how
      many of how many files are done. */
  datatype ProgressReport = ProgressReport(filePath: string, current: int, total: int)

  /** How the indexer's run ended: it returned a result, raised an
      `Exception` with a message, or was stopped by an exception outside
      the `Exception` hierarchy (such as `KeyboardInterrupt`) that the
      task does not catch. */
  datatype RunOutcome<R> = Returned(result: R) | Raised(message: string) | Escaped

  /** The record before any run. */
  function Initial<R>(): (s: Status<R>)
    ensures !s.isIndexing
    ensures s.currentFile == "" && s.progress == 0 && s.total == 0
    ensures s.lastResult == None
  {
    Status(false, "", 0, 0, None)
  }

  /** `progress_callback`: records the report and touches nothing else. */
  function Progress<R>(s: Status<R>, report: ProgressReport): (t: Status<R>)
    ensures t.currentFile == report.filePath && t.progress == report.current && t.total == report.total
    ensures t.isIndexing == s.isIndexing && t.lastResult == s.lastResult
  {
    s.(currentFile := report.filePath, progress := report.current, total := report.total)
  }

  /** The progress callback applied to each report in turn. */
  function ProgressAll<R>(s: Status<R>, reports: seq<ProgressReport>): (t: Status<R>)
    ensures t.isIndexing == s.isIndexing && t.lastResult == s.lastResult
    ensures |reports| == 0 ==> t == s
    ensures |reports| > 0 ==> t == Progress(s, reports[|reports| - 1])
    decreases |reports|
  {
    if |reports| == 0 then s
    else Progress(ProgressAll(s, reports[..|reports| - 1]), reports[|reports| - 1])
  }

  /** The start of `index_directory_task`: marks the run as in progress and
      clears the current file and the progress count; `total` and the
      previous run's result stay. */
  function StartRun<R>(s: Status<R>): (t: Status<R>)
    ensures t.isIndexing && t.progress == 0 && t.currentFile == ""
    ensures t.total == s.total && t.lastResult == s.lastResult
  {
    s.(isIndexing := true, progress := 0, currentFile := "")
  }

  /** The end of `index_directory_task`: the `try` stores the result, the
      `except Exception` branch stores the error message, and the `finally`
      clears the in-progress flag in every case. */
  function FinishRun<R>(s: Status<R>, outcome: RunOutcome<R>): (t: Status<R>)
    ensures !t.isIndexing
    ensures outcome.Returned? ==> t.lastResult == Some(Completed(outcome.result))
    ensures outcome.Raised? ==> t.lastResult == Some(Failed(outcome.message))
    ensures outcome.Escaped? ==> t.lastResult == s.lastResult
    ensures t.currentFile == s.currentFile && t.progress == s.progress && t.total == s.total
  {
    var stored := match outcome
      case Returned(r) => s.(lastResult := Some(Completed(r)))
      case Raised(m) => s.(lastResult := Some(Failed(m)))
      case Escaped => s;
    stored.(isIndexing := false)
  }

  /** A whole background run: start, the indexer's progress reports, and
      the end with the given outcome. */
  function IndexDirectoryTask<R>(s: Status<R>, reports: seq<ProgressReport>, outcome: RunOutcome<R>): (t: Status<R>)
    ensures !t.isIndexing
    ensures outcome.Returned? ==> t.lastResult == Some(Completed(outcome.result))
    ensures outcome.Raised? ==> t.lastResult == Some(Failed(outcome.message))
    ensures outcome.Escaped? ==> t.lastResult == s.lastResult
    ensures |reports| == 0 ==> t.currentFile == "" && t.progress == 0 && t.total == s.total
    ensures |reports| > 0 ==> var last := reports[|reports| - 1];
              t.currentFile == last.filePath && t.progress == last.current && t.total == last.total
  {
    FinishRun(ProgressAll(StartRun(s), reports), outcome)
  }

  /** Between start and end the record says a run is in progress, and the
      previous run's result is still visible, whatever reports arrive. */
  lemma IndexingDuringRun<R>(s: Status<R>, reports: seq<ProgressReport>, k: nat)
    requires k <= |reports|
    ensures ProgressAll(StartRun(s), reports[..k]).isIndexing
    ensures ProgressAll(StartRun(s), reports[..k]).lastResult == s.lastResult
  {
  }

  /** Only the latest progress report counts: a report overwrites every
      field an earlier one set. */
  lemma ProgressOverwrites<R>(s: Status<R>, a: ProgressReport, b: ProgressReport)
    ensures Progress(Progress(s, a), b) == Progress(s, b)
  {
  }

  /** Starting a run twice is the same as starting it once. */
  lemma StartIdempotent<R>(s: Status<R>)
    ensures StartRun(StartRun(s)) == StartRun(s)
  {
  }

  /** The outcome of a run does not depend on the record it started from:
      two runs with the same reports and the same `Returned` or `Raised`
      outcome end in the same record once `total` agrees. */
  lemma RunForgetsPast<R>(s: Status<R>, s': Status<R>, reports: seq<ProgressReport>, outcome: RunOutcome<R>)
    requires s.total == s'.total
    requires !outcome.Escaped?
    ensures IndexDirectoryTask(s, reports, outcome) == IndexDirectoryTask(s', reports, outcome)
  {
    assert StartRun(s) == StartRun(s').(lastResult := s.lastResult);
    ProgressAllFrame(StartRun(s), StartRun(s'), reports);
  }

  /** Two records that differ only in `lastResult` stay that way under
      progress reports. */
  lemma {:induction false} ProgressAllFrame<R>(s: Status<R>, s': Status<R>, reports: seq<ProgressReport>)
    requires s == s'.(lastResult := s.lastResult)
    ensures ProgressAll(s, reports) == ProgressAll(s', reports).(lastResult := s.lastResult)
    decreases |reports|
  {
    if |reports| > 0 {
      ProgressAllFrame(s, s', reports[..|reports| - 1]);
    }
  }

  /** A run that never reported progress, started from the initial record
      and ending in a result, leaves exactly that result and zero counts. */
  lemma FirstRunWithoutReports<R>(result: R)
    ensures IndexDirectoryTask(Initial<R>(), [], Returned(result))
            == Status(false, "", 0, 0, Some(Completed(result)))
  {
  }
}
