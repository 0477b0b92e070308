/**
 * Task planning of `download_data` (lines 92-105): for every data type and
 * every month of the date range, in that nesting, a task pairing the
 * download URL with the local path.
 */
module Planner {
  import opened Calendar
  import opened Naming

  const DefaultBaseUrl: string := "https://d37ci6vzurychx.cloudfront.net/trip-data/"

  /** The four trip-record catalogs, in the order the downloader lists them. */
  const DefaultDataTypes: seq<string> := ["yellow_tripdata", "green_tripdata", "fhv_tripdata", "fhvhv_tripdata"]

  /** The downloader's configuration; `__init__` sets it and nothing changes it afterwards. */
  datatype Downloader = Downloader(downloadDir: string, baseUrl: string, dataTypes: seq<string>)

  /** Data types that are single plain path and URL segments. */
  predicate ValidDataTypes(types: seq<string>) {
    forall t :: t in types ==> IsPlainName(t)
  }

  predicate Distinct<T(==)>(s: seq<T>) {
    forall i, j :: 0 <= i < j < |s| ==> s[i] != s[j]
  }

  /** Months whose year formats as exactly four digits. */
  predicate FourDigitMonths(dates: seq<YearMonth>) {
    forall i :: 0 <= i < |dates| ==> 0 <= dates[i].year <= 9999 && IsMonth(dates[i])
  }

  /** What the rest of the model relies on about a downloader. */
  predicate ValidDownloader(d: Downloader) {
    EndsWithSlash(d.baseUrl) && ValidDataTypes(d.dataTypes)
  }

  /** `__init__`: the fixed origin and the four catalogs, with a base URL ending in `/`. */
  function NewDownloader(downloadDir: string): (d: Downloader)
    ensures d.downloadDir == downloadDir
    ensures ValidDownloader(d) && |d.dataTypes| == 4 && Distinct(d.dataTypes)
  {
    DefaultDataTypesValid();
    Downloader(downloadDir, DefaultBaseUrl, DefaultDataTypes)
  }

  lemma DefaultDataTypesValid()
    ensures ValidDataTypes(DefaultDataTypes) && Distinct(DefaultDataTypes)
  {
    assert IsPlainName(DefaultDataTypes[0]);
    assert IsPlainName(DefaultDataTypes[1]);
    assert IsPlainName(DefaultDataTypes[2]);
    assert IsPlainName(DefaultDataTypes[3]);
    assert DefaultDataTypes[0][0] != DefaultDataTypes[1][0] && DefaultDataTypes[2][3] != DefaultDataTypes[3][3];
  }

  /** The `(url, local_path)` pair of line 105. */
  datatype Task = Task(url: string, localPath: string)

  function MakeTask(d: Downloader, dataType: string, m: YearMonth): Task
    requires EndsWithSlash(d.baseUrl) && IsPlainName(dataType)
  {
    Task(DownloadUrl(d.baseUrl, dataType, m.year, m.month),
         JoinPath(JoinPath(d.downloadDir, dataType), FileName(dataType, m.year, m.month)))
  }

  /**
   * The (data type, month) pairs the nested loops visit: for each data type
   * in turn, every month of `dates` in order.
   */
  function Cross<A, B>(xs: seq<A>, ys: seq<B>): (c: seq<(A, B)>)
    ensures forall k :: 0 <= k < |c| ==> c[k].0 in xs && c[k].1 in ys
  {
    if xs == [] then []
    else Cross(xs[..|xs| - 1], ys) + PairRow(xs[|xs| - 1], ys)
  }

  /** The pairs of one data type: one per month, in order. */
  function PairRow<A, B>(a: A, ys: seq<B>): seq<(A, B)> {
    seq(|ys|, j requires 0 <= j < |ys| => (a, ys[j]))
  }

  /** Every key names a plain data type. */
  predicate ValidKeys(keys: seq<(string, YearMonth)>) {
    forall k :: 0 <= k < |keys| ==> IsPlainName(keys[k].0)
  }

  function TasksOf(d: Downloader, keys: seq<(string, YearMonth)>): seq<Task>
    requires EndsWithSlash(d.baseUrl) && ValidKeys(keys)
  {
    seq(|keys|, k requires 0 <= k < |keys| => MakeTask(d, keys[k].0, keys[k].1))
  }

  /** Reference definition of the task list: one task per (type, month) pair, type-major. */
  function Plan(d: Downloader, types: seq<string>, dates: seq<YearMonth>): seq<Task>
    requires EndsWithSlash(d.baseUrl) && ValidDataTypes(types)
  {
    TasksOf(d, Cross(types, dates))
  }

  /** The nested loops of lines 95-105, appending one task per (type, month). */
  method PlanTasks(d: Downloader, types: seq<string>, dates: seq<YearMonth>) returns (tasks: seq<Task>)
    requires EndsWithSlash(d.baseUrl) && ValidDataTypes(types)
    ensures tasks == Plan(d, types, dates)
  {
    tasks := [];
    ghost var keys: seq<(string, YearMonth)> := [];
    var i := 0;
    while i < |types|
      invariant 0 <= i <= |types|
      invariant keys == Cross(types[..i], dates)
      invariant ValidKeys(keys) && tasks == TasksOf(d, keys)
    {
      var dataType := types[i];
      var j := 0;
      while j < |dates|
        invariant 0 <= j <= |dates|
        invariant keys == Cross(types[..i], dates) + PairRow(dataType, dates[..j])
        invariant ValidKeys(keys) && tasks == TasksOf(d, keys)
      {
        TasksOfAppend(d, keys, (dataType, dates[j]));
        PairRowStep(Cross(types[..i], dates), dataType, dates, j);
        tasks := tasks + [MakeTask(d, dataType, dates[j])];
        keys := keys + [(dataType, dates[j])];
        j := j + 1;
      }
      CrossStep(types, dates, i);
      i := i + 1;
    }
    assert types[..i] == types;
  }

  lemma PairRowStep<A, B>(front: seq<(A, B)>, a: A, ys: seq<B>, j: int)
    requires 0 <= j < |ys|
    ensures front + PairRow(a, ys[..j]) + [(a, ys[j])] == front + PairRow(a, ys[..j + 1])
  {
    assert PairRow(a, ys[..j + 1]) == PairRow(a, ys[..j]) + [(a, ys[j])];
  }

  lemma CrossStep<A, B>(xs: seq<A>, ys: seq<B>, i: int)
    requires 0 <= i < |xs|
    ensures Cross(xs[..i], ys) + PairRow(xs[i], ys[..|ys|]) == Cross(xs[..i + 1], ys)
  {
    assert xs[..i + 1][..i] == xs[..i];
    assert ys[..|ys|] == ys;
  }

  lemma TasksOfAppend(d: Downloader, keys: seq<(string, YearMonth)>, key: (string, YearMonth))
    requires EndsWithSlash(d.baseUrl) && ValidKeys(keys) && IsPlainName(key.0)
    ensures ValidKeys(keys + [key])
    ensures TasksOf(d, keys + [key]) == TasksOf(d, keys) + [MakeTask(d, key.0, key.1)]
  {
  }

  lemma RowMajorBound(i: int, j: int, n: int, m: int)
    requires 0 <= i < n && 0 <= j < m
    ensures 0 <= i * m + j < n * m
  {
    assert (i + 1) * m == i * m + m;
    assert (i + 1) * m <= n * m;
  }

  /** The pair list has one entry per (data type, month). */
  lemma {:induction false} CrossLength<A, B>(xs: seq<A>, ys: seq<B>)
    ensures |Cross(xs, ys)| == |xs| * |ys|
    decreases |xs|
  {
    if xs != [] {
      var n := |xs| - 1;
      CrossLength(xs[..n], ys);
      assert |xs| * |ys| == n * |ys| + |ys|;
    }
  }

  /** Type-major order: the pair of the `i`-th type and `j`-th month is at `i * |ys| + j`. */
  lemma {:induction false} CrossAt<A, B>(xs: seq<A>, ys: seq<B>, i: int, j: int)
    requires 0 <= i < |xs| && 0 <= j < |ys|
    ensures |Cross(xs, ys)| == |xs| * |ys|
    ensures 0 <= i * |ys| + j < |Cross(xs, ys)| && Cross(xs, ys)[i * |ys| + j] == (xs[i], ys[j])
    decreases |xs|
  {
    var n, m := |xs| - 1, |ys|;
    CrossLength(xs, ys);
    CrossLength(xs[..n], ys);
    RowMajorBound(i, j, |xs|, m);
    if i < n {
      CrossAt(xs[..n], ys, i, j);
      RowMajorBound(i, j, n, m);
    } else {
      assert i * m + j == n * m + j;
    }
  }

  /** The task list has exactly one entry per (data type, month) pair. */
  lemma PlanLength(d: Downloader, types: seq<string>, dates: seq<YearMonth>)
    requires EndsWithSlash(d.baseUrl) && ValidDataTypes(types)
    ensures |Plan(d, types, dates)| == |types| * |dates|
  {
    CrossLength(types, dates);
  }

  /**
   * Type-major order: the task for the `i`-th data type and the `j`-th month
   * sits at position `i * |dates| + j`.
   */
  lemma PlanAt(d: Downloader, types: seq<string>, dates: seq<YearMonth>, i: int, j: int)
    requires EndsWithSlash(d.baseUrl) && ValidDataTypes(types)
    requires 0 <= i < |types| && 0 <= j < |dates|
    ensures |Plan(d, types, dates)| == |types| * |dates|
    ensures 0 <= i * |dates| + j < |Plan(d, types, dates)|
            && Plan(d, types, dates)[i * |dates| + j] == MakeTask(d, types[i], dates[j])
  {
    CrossAt(types, dates, i, j);
    RowMajorBound(i, j, |types|, |dates|);
  }

  /** `PlanAt` for a position already split into its type and month. */
  lemma PlanAtIndex(d: Downloader, types: seq<string>, dates: seq<YearMonth>, k: int, i: int, j: int)
    requires EndsWithSlash(d.baseUrl) && ValidDataTypes(types)
    requires 0 <= i < |types| && 0 <= j < |dates| && k == i * |dates| + j
    ensures 0 <= k < |Plan(d, types, dates)| && Plan(d, types, dates)[k] == MakeTask(d, types[i], dates[j])
  {
    PlanAt(d, types, dates, i, j);
  }

  /** Two different positions of a row-major `n` by `m` grid have different coordinates. */
  lemma SplitPair(k1: int, k2: int, n: int, m: int) returns (i1: int, j1: int, i2: int, j2: int)
    requires 0 <= k1 < k2 < n * m && 0 <= n && 0 <= m
    ensures 0 <= i1 < n && 0 <= j1 < m && k1 == i1 * m + j1
    ensures 0 <= i2 < n && 0 <= j2 < m && k2 == i2 * m + j2
    ensures i1 != i2 || j1 != j2
  {
    if m == 0 {
      assert false;
    }
    i1, j1, i2, j2 := k1 / m, k1 % m, k2 / m, k2 % m;
  }

  /** The local path of a task, spelled out in terms of its type and month. */
  lemma MakeTaskPath(d: Downloader, dataType: string, m: YearMonth)
    requires EndsWithSlash(d.baseUrl) && IsPlainName(dataType)
    ensures MakeTask(d, dataType, m).localPath == LocalPath(d.downloadDir, dataType, m.year, m.month)
  {
  }

  /** Two different positions of the task list hold different local paths. */
  lemma PlanPathsDiffer(d: Downloader, types: seq<string>, dates: seq<YearMonth>, k1: int, k2: int)
    requires EndsWithSlash(d.baseUrl) && ValidDataTypes(types)
    requires Distinct(types) && Distinct(dates) && FourDigitMonths(dates)
    requires 0 <= k1 < k2 < |types| * |dates|
    ensures |Plan(d, types, dates)| == |types| * |dates|
    ensures Plan(d, types, dates)[k1].localPath != Plan(d, types, dates)[k2].localPath
  {
    PlanLength(d, types, dates);
    var i1, j1, i2, j2 := SplitPair(k1, k2, |types|, |dates|);
    var t1, m1, t2, m2 := types[i1], dates[j1], types[i2], dates[j2];
    PlanAtIndex(d, types, dates, k1, i1, j1);
    PlanAtIndex(d, types, dates, k2, i2, j2);
    assert t1 != t2 || m1 != m2;
    TaskPathsDiffer(d, t1, m1, t2, m2);
  }

  /** Tasks for different (type, month) pairs have different local paths. */
  lemma TaskPathsDiffer(d: Downloader, t1: string, m1: YearMonth, t2: string, m2: YearMonth)
    requires EndsWithSlash(d.baseUrl) && IsPlainName(t1) && IsPlainName(t2)
    requires 0 <= m1.year <= 9999 && IsMonth(m1) && 0 <= m2.year <= 9999 && IsMonth(m2)
    requires t1 != t2 || m1 != m2
    ensures MakeTask(d, t1, m1).localPath != MakeTask(d, t2, m2).localPath
  {
    MakeTaskPath(d, t1, m1);
    MakeTaskPath(d, t2, m2);
    if MakeTask(d, t1, m1).localPath == MakeTask(d, t2, m2).localPath {
      LocalPathInjective(d.downloadDir, t1, m1.year, m1.month, t2, m2.year, m2.month);
      assert false;
    }
  }

  /**
   * No two tasks share a local path when the data types are distinct and the
   * months are distinct four-digit-year months: this is what lets every task
   * write its file without locking.
   */
  lemma PlanPathsDistinct(d: Downloader, types: seq<string>, dates: seq<YearMonth>)
    requires EndsWithSlash(d.baseUrl) && ValidDataTypes(types)
    requires Distinct(types) && Distinct(dates) && FourDigitMonths(dates)
    ensures var plan := Plan(d, types, dates);
      forall k1, k2 :: 0 <= k1 < k2 < |plan| ==> plan[k1].localPath != plan[k2].localPath
  {
    PlanLength(d, types, dates);
    forall k1, k2 | 0 <= k1 < k2 < |Plan(d, types, dates)|
      ensures Plan(d, types, dates)[k1].localPath != Plan(d, types, dates)[k2].localPath
    {
      PlanPathsDiffer(d, types, dates, k1, k2);
    }
  }
}
