/**
 * The run of `download_data`: the date range and the task list, every task
 * handed to `download_file`, and the tally of successes and failures.
 */
module Scheduler {
  import opened Wrappers
  import opened Calendar
  import opened Planner
  import opened Fetcher

  /** `download_data` calls `download_file` without `max_retries`, so its default applies. */
  const MaxRetries: int := 3

  /** How many outcomes count as successful downloads (True from `download_file`). */
  function CountSucceeded(outcomes: seq<FetchOutcome>): nat {
    if outcomes == [] then 0
    else CountSucceeded(outcomes[..|outcomes| - 1]) + (if Succeeded(outcomes[|outcomes| - 1]) then 1 else 0)
  }

  /**
   * Lines 114-137: each completed task adds one to `successful_downloads`
   * when it returned True and one to `failed_downloads` when it returned
   * False or raised. `completed` is in completion order.
   */
  method Tally(completed: seq<FetchOutcome>) returns (successful: nat, failed: nat)
    ensures successful == CountSucceeded(completed)
    ensures successful + failed == |completed|
  {
    successful, failed := 0, 0;
    for k := 0 to |completed|
      invariant successful == CountSucceeded(completed[..k])
      invariant successful + failed == k
    {
      assert completed[..k + 1][..k] == completed[..k];
      if Succeeded(completed[k]) {
        successful := successful + 1;
      } else {
        failed := failed + 1;
      }
    }
    assert completed[..|completed|] == completed;
  }

  /** The count depends only on how many outcomes of each kind there are. */
  lemma {:induction false} CountByMultiset(s: seq<FetchOutcome>)
    ensures CountSucceeded(s) == multiset(s)[Downloaded] + multiset(s)[AlreadyPresent]
  {
    if s != [] {
      var n := |s| - 1;
      assert s == s[..n] + [s[n]];
      CountByMultiset(s[..n]);
    }
  }

  /**
   * Completion order does not matter: any reordering of the outcomes, as
   * `as_completed` may deliver them, gives the same counts.
   */
  lemma TallyOrderIndependent(a: seq<FetchOutcome>, b: seq<FetchOutcome>)
    requires multiset(a) == multiset(b)
    ensures |a| == |b|
    ensures CountSucceeded(a) == CountSucceeded(b)
  {
    CountByMultiset(a);
    CountByMultiset(b);
    assert |a| == |multiset(a)| == |multiset(b)| == |b|;
  }

  /** Every task is counted as successful exactly when every outcome is True. */
  lemma {:induction false} CountAllSucceeded(s: seq<FetchOutcome>)
    ensures CountSucceeded(s) <= |s|
    ensures CountSucceeded(s) == |s| <==> forall k :: 0 <= k < |s| ==> Succeeded(s[k])
  {
    if s != [] {
      var n := |s| - 1;
      CountAllSucceeded(s[..n]);
      if CountSucceeded(s) == |s| {
        forall k | 0 <= k < |s| ensures Succeeded(s[k]) {
          if k < n {
            assert s[..n][k] == s[k];
          }
        }
      }
      if forall k :: 0 <= k < |s| ==> Succeeded(s[k]) {
        assert forall k :: 0 <= k < n ==> s[..n][k] == s[k];
      }
    }
  }

  /**
   * Isolation: one task that fails leaves the others' outcomes counted, so a
   * batch of N with one failure reports N - 1 successful and 1 failed.
   */
  lemma {:induction false} OneFailure(s: seq<FetchOutcome>, m: int)
    requires 0 <= m < |s| && !Succeeded(s[m])
    requires forall k :: 0 <= k < |s| && k != m ==> Succeeded(s[k])
    ensures CountSucceeded(s) == |s| - 1
  {
    var n := |s| - 1;
    if m == n {
      CountAllSucceeded(s[..n]);
    } else {
      OneFailure(s[..n], m);
    }
  }

  /** The local files: the size of each file present, by path. */
  type Disk = map<string, nat>

  /** `os.path.exists` and `os.path.getsize` of a path. */
  function Lookup(disk: Disk, path: string): Option<nat> {
    if path in disk then Some(disk[path]) else None
  }

  /** The file at `path` after a task: absent stays absent, anything written replaces it. */
  function Store(disk: Disk, path: string, after: Option<nat>): Disk {
    if after.Some? then disk[path := after.value] else disk
  }

  /** A run never deletes the local file, and leaves one whenever it returns True. */
  lemma FetchFile(respond: nat -> Attempt, local: Option<nat>)
    ensures var r := Fetch(MaxRetries, respond, local, 0);
      (r.local.None? ==> local.None?) && (Succeeded(r.outcome) ==> r.local.Some?)
  {
    FetchShape(MaxRetries, respond, local);
  }

  /** Storing a task's file changes that path alone, and never removes a file. */
  lemma StoreStep(disk: Disk, path: string, after: Option<nat>)
    requires after.None? ==> path !in disk
    ensures Lookup(Store(disk, path, after), path) == after
    ensures forall p :: p != path ==> Lookup(Store(disk, path, after), p) == Lookup(disk, p)
    ensures forall p :: p in disk ==> p in Store(disk, path, after)
  {
  }

  /** One task run on its own against the files as they are in `disk`. */
  function TaskResult(t: Task, disk: Disk, network: string -> nat -> Attempt): FetchResult {
    Fetch(MaxRetries, network(t.url), Lookup(disk, t.localPath), 0)
  }

  /** The outcome each task gets when it sees the files as they were before the run. */
  function IsolatedOutcomes(tasks: seq<Task>, disk: Disk, network: string -> nat -> Attempt): seq<FetchOutcome> {
    seq(|tasks|, k requires 0 <= k < |tasks| => TaskResult(tasks[k], disk, network).outcome)
  }

  predicate PathsDistinct(tasks: seq<Task>) {
    forall k1, k2 :: 0 <= k1 < k2 < |tasks| ==> tasks[k1].localPath != tasks[k2].localPath
  }

  /**
   * The worker pool of lines 117-122, one task after another: every task is
   * attempted exactly once, through `download_file` with the default retry
   * budget. `network(url)` is what the attempts at `url` meet. With distinct
   * paths no task sees another's file, so each outcome is the one the task
   * gets on its own, and files no task names are untouched.
   */
  method RunTasks(tasks: seq<Task>, disk: Disk, network: string -> nat -> Attempt)
    returns (outcomes: seq<FetchOutcome>, disk': Disk)
    ensures |outcomes| == |tasks|
    ensures PathsDistinct(tasks) ==> outcomes == IsolatedOutcomes(tasks, disk, network)
    ensures PathsDistinct(tasks) ==> forall k :: 0 <= k < |tasks| ==>
              Lookup(disk', tasks[k].localPath) == TaskResult(tasks[k], disk, network).local
    ensures forall p :: (forall k :: 0 <= k < |tasks| ==> tasks[k].localPath != p) ==> Lookup(disk', p) == Lookup(disk, p)
    ensures forall k :: 0 <= k < |tasks| && Succeeded(outcomes[k]) ==> tasks[k].localPath in disk'
  {
    outcomes, disk' := [], disk;
    for k := 0 to |tasks|
      invariant |outcomes| == k
      invariant forall p :: (forall i :: 0 <= i < k ==> tasks[i].localPath != p) ==> Lookup(disk', p) == Lookup(disk, p)
      invariant PathsDistinct(tasks) ==> forall i :: 0 <= i < k ==>
                  outcomes[i] == TaskResult(tasks[i], disk, network).outcome
                  && Lookup(disk', tasks[i].localPath) == TaskResult(tasks[i], disk, network).local
      invariant forall i :: 0 <= i < k && Succeeded(outcomes[i]) ==> tasks[i].localPath in disk'
    {
      var t := tasks[k];
      var outcome, delays, after, attempts := DownloadFile(MaxRetries, network(t.url), Lookup(disk', t.localPath));
      FetchFile(network(t.url), Lookup(disk', t.localPath));
      StoreStep(disk', t.localPath, after);
      if PathsDistinct(tasks) {
        assert Lookup(disk', t.localPath) == Lookup(disk, t.localPath);
      }
      ghost var before := disk';
      outcomes := outcomes + [outcome];
      disk' := Store(disk', t.localPath, after);
      if PathsDistinct(tasks) {
        forall i | 0 <= i < k + 1
          ensures outcomes[i] == TaskResult(tasks[i], disk, network).outcome
          ensures Lookup(disk', tasks[i].localPath) == TaskResult(tasks[i], disk, network).local
        {
          if i < k {
            assert tasks[i].localPath != t.localPath;
            assert Lookup(disk', tasks[i].localPath) == Lookup(before, tasks[i].localPath);
          }
        }
      }
      forall i | 0 <= i < k + 1 && Succeeded(outcomes[i])
        ensures tasks[i].localPath in disk'
      {
        if i < k {
          assert tasks[i].localPath in before;
        }
      }
    }
  }

  /** Why `download_data` stops with an exception before any download. */
  datatype RunError =
    | DateOutOfRange   // `generate_date_range` stepped past December 9999
    | EmptyDateRange   // `min(date_range)` at line 109 on an empty range
    | BadWorkerCount   // `ThreadPoolExecutor` refuses `max_workers <= 0`

  /** Line 88-89: `None` selects the downloader's own list; an explicit list, even empty, is used. */
  function ChosenTypes(d: Downloader, dataTypes: Option<seq<string>>): seq<string> {
    if dataTypes.Some? then dataTypes.value else d.dataTypes
  }

  /** The tasks `download_data` builds for a data-type choice and a window. */
  function RunPlan(d: Downloader, dataTypes: Option<seq<string>>, start: YearMonth, end: YearMonth): seq<Task>
    requires ValidDownloader(d)
    requires dataTypes.Some? ==> ValidDataTypes(dataTypes.value)
  {
    Plan(d, ChosenTypes(d, dataTypes), MonthSpan(start, end))
  }

  /** The months of a window are distinct and have four-digit years. */
  lemma SpanDistinct(start: YearMonth, end: YearMonth)
    requires InDatetimeRange(start) && InDatetimeRange(end)
    ensures Distinct(MonthSpan(start, end)) && FourDigitMonths(MonthSpan(start, end))
  {
    MonthSpanShape(start, end);
  }

  /**
   * `download_data` with the window given as its first and last month. It
   * returns `(successful, failed)` or the exception that stops it; `disk'`
   * is the local files afterwards.
   */
  method DownloadData(d: Downloader, dataTypes: Option<seq<string>>, start: YearMonth, end: YearMonth,
                      maxWorkers: int, disk: Disk, network: string -> nat -> Attempt)
    returns (r: Result<(nat, nat), RunError>, disk': Disk)
    requires ValidDownloader(d)
    requires dataTypes.Some? ==> ValidDataTypes(dataTypes.value)
    requires InDatetimeRange(start) && InDatetimeRange(end)
    ensures r == Failure(DateOutOfRange) <==> RollsPastMaxYear(start, end)
    ensures r == Failure(EmptyDateRange) <==> SpanLength(start, end) == 0
    ensures r == Failure(BadWorkerCount) <==> SpanLength(start, end) > 0 && !RollsPastMaxYear(start, end) && maxWorkers <= 0
    ensures r.Failure? ==> disk' == disk
    ensures r.Success? ==> r.value.0 + r.value.1 == |ChosenTypes(d, dataTypes)| * SpanLength(start, end)
    ensures r.Success? && Distinct(ChosenTypes(d, dataTypes)) ==>
              r.value.0 == CountSucceeded(IsolatedOutcomes(RunPlan(d, dataTypes, start, end), disk, network))
    // each task's file is the one it leaves when run on its own
    ensures r.Success? && Distinct(ChosenTypes(d, dataTypes)) ==>
              var tasks := RunPlan(d, dataTypes, start, end);
              forall k :: 0 <= k < |tasks| ==>
                Lookup(disk', tasks[k].localPath) == TaskResult(tasks[k], disk, network).local
    // every task that succeeds on its own leaves its file on disk
    ensures r.Success? && Distinct(ChosenTypes(d, dataTypes)) ==>
              var tasks := RunPlan(d, dataTypes, start, end);
              forall k :: 0 <= k < |tasks| && Succeeded(TaskResult(tasks[k], disk, network).outcome) ==>
                tasks[k].localPath in disk'
    // files no task names are untouched
    ensures r.Success? ==>
              var tasks := RunPlan(d, dataTypes, start, end);
              forall p :: (forall k :: 0 <= k < |tasks| ==> tasks[k].localPath != p) ==> Lookup(disk', p) == Lookup(disk, p)
  {
    var types := ChosenTypes(d, dataTypes);
    var range := GenerateDateRange(start, end);
    if range.Failure? {
      return Failure(DateOutOfRange), disk;
    }
    var dates := range.value;
    var tasks := PlanTasks(d, types, dates);
    assert tasks == RunPlan(d, dataTypes, start, end);
    PlanLength(d, types, dates);
    if |dates| == 0 {
      return Failure(EmptyDateRange), disk;
    }
    if maxWorkers <= 0 {
      return Failure(BadWorkerCount), disk;
    }
    var outcomes;
    outcomes, disk' := RunTasks(tasks, disk, network);
    var successful, failed := Tally(outcomes);
    if Distinct(types) {
      SpanDistinct(start, end);
      PlanPathsDistinct(d, types, dates);
    }
    return Success((successful, failed)), disk';
  }
}
