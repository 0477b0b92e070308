# NYC TLC trip-record downloader, modelled in Dafny

This project models the planning and decision logic of `NYCTLCDownloader`
(`nyc_tlc_scraper/tlc_downloader.py`). The downloader fetches the monthly
trip-record files (`yellow_tripdata`, `green_tripdata`, `fhv_tripdata`,
`fhvhv_tripdata`) from one HTTP origin into one directory per data type. It
retries failed downloads with exponential back-off and skips files already
present at the size the server declares.

The network, the file system, the clock and the thread pool are replaced by
parameters:

- each download attempt is an `Attempt` value: the request failed, or a
  response arrived with a `content-length` header and a body that was written
  in full, cut off by a network error, or cut off by a disk error;
- the local file is its size (`Option<nat>`, `None` when absent), and the
  whole download directory is a `map` from path to size;
- the sleeps are a list of delays, in seconds;
- the date window is its first and last month, not `datetime.now()`.

Modules, one per part of the downloader:

- `Calendar` (`calendar.dfy`): the month walk of `generate_date_range`.
- `Naming` (`naming.dfy`): Python's zero-padded integer formatting, the file
  name, the URL and the local path.
- `Planner` (`planner.dfy`): the downloader's configuration and the task
  list of `download_data`.
- `Fetcher` (`fetcher.dfy`): the retry, back-off and skip logic of
  `download_file`.
- `Scheduler` (`scheduler.dfy`): running every task, the tally, and
  `download_data` as a whole.
- `Wrappers` (`wrappers.dfy`): `Option` and `Result`.

Three loops of the source are methods with loop invariants: the month walk,
the nested task-building loops and the retry loop. So are the tally and the
run over all tasks. Each method's postcondition ties its result to a
reference function (`MonthSpan`, `Plan`, `Fetch`, `CountSucceeded`), and
lemmas prove the promised properties of those functions.

Facts about the source that the model follows:

- `current <= end_date` in the month walk compares months only. `current`
  is on day 1 and keeps the time of day of `end_date`, because for an
  integer `years_back` it is derived from `end_date` by subtracting whole
  days.
- A window of zero years yields exactly one month, the current one, so it
  gives one task per data type rather than an empty task list. An
  empty date range happens only when the start is after the end. Then
  `min(date_range)` at line 109 raises `ValueError` before any download
  (`RunError.EmptyDateRange`).
- `datetime` cannot go past year 9999. A walk that reaches December 9999
  raises on the roll-over (`DateError.YearOutOfRange`).
- `int(content-length)` runs only when the local file exists. An unreadable
  header therefore matters only then. Its `ValueError` is not a
  `RequestException`, so it escapes `download_file` without a retry. The
  tally then counts that task as failed (line 135).
- Disk write errors (`OSError`) are not `RequestException`s either. They end
  the task at once, without a retry, and the task counts as failed.
- A stream cut off by a `RequestException` leaves a truncated file. The next
  attempt's size check sees that truncated file (`Fetcher.SucceedsAfterFailures`,
  `Fetcher.AllAttemptsFail`).
- `ThreadPoolExecutor(max_workers)` raises `ValueError` when
  `max_workers <= 0` (`RunError.BadWorkerCount`). Apart from that check, the
  pool width plays no part in the model.

## Model

| member | source | states |
|---|---|---|
| `Calendar.GenerateDateRange` | nyc_tlc_scraper/tlc_downloader.py:25-42 | The walk's result is exactly `MonthSpan(start, end)`: every month from start to end, inclusive. It fails with a year-out-of-range error exactly when the walk must step past December 9999. |
| `Calendar.MonthSpanShape` | nyc_tlc_scraper/tlc_downloader.py:30-42 | The range has `(endY*12+endM) - (startY*12+startM) + 1` entries (0 when end is earlier). It starts at the start month and ends at the end month. Every entry is a valid month. Each entry is followed by the next calendar month, and the sequence is strictly increasing. |
| `Calendar.SingleMonthWindow` | nyc_tlc_scraper/tlc_downloader.py:27-34 | A window whose start and end fall in the same month yields exactly that month. |
| `Calendar.NextMonth` | nyc_tlc_scraper/tlc_downloader.py:36-40 | The step gives a valid month whose month index is one more. December rolls over to January of the next year. |
| `Calendar.NotAfterByIndex` | nyc_tlc_scraper/tlc_downloader.py:33 | The loop guard `current <= end_date` holds exactly when the current month's index is at most the end month's index. |
| `Calendar.FromIndex` | nyc_tlc_scraper/tlc_downloader.py:34-40 | Turning a month index back into a (year, month) pair gives a month in 1..12 with that index. |
| `Naming.Digits` | nyc_tlc_scraper/tlc_downloader.py:46 | The decimal form of a non-negative number is a non-empty string of digits. |
| `Naming.ZeroPad` | nyc_tlc_scraper/tlc_downloader.py:46 | `{n:0Wd}` for `n >= 0` is all digits and at least `W` characters long. |
| `Naming.FormatRoundTrip` | nyc_tlc_scraper/tlc_downloader.py:46 | Python's zero-padded formatting, with negative numbers keeping their sign in front, is inverted by parsing, for every integer and width. |
| `Naming.ZeroPadRoundTrip` | nyc_tlc_scraper/tlc_downloader.py:46 | Parsing the zero-padded digits of `n` gives back `n`. |
| `Naming.ZeroPadWidth` | nyc_tlc_scraper/tlc_downloader.py:46 | A number below `10^W` is padded to exactly `W` characters. So years 0..9999 take four and months take two. |
| `Naming.FileNameLayout` | nyc_tlc_scraper/tlc_downloader.py:102 | The file name is the data type, `_`, four year digits, `-`, two month digits and `.parquet`, 16 characters after the type. The year and month read back from their positions are the ones it was built from. |
| `Naming.FileNameInjective` | nyc_tlc_scraper/tlc_downloader.py:46 | Distinct (type, year, month) triples, with years in 0..9999 and months in 1..12, give distinct file names. |
| `Naming.FileNameIsSegment` | nyc_tlc_scraper/tlc_downloader.py:46-47 | For a plain data type, the file name holds no `/`, `:`, `?` or `#` and does not start with a dot. So `urljoin` onto the downloader's fixed base, which ends in `/`, has no empty or dot path segments and no params, query or fragment, appends it. |
| `Naming.DownloadUrlInjective` | nyc_tlc_scraper/tlc_downloader.py:44-47 | Under one base URL, distinct (type, year, month) triples give distinct download URLs. |
| `Naming.LocalPathLayout` | nyc_tlc_scraper/tlc_downloader.py:97-103 | The local path is the download directory, then the data type's own subdirectory, then the file name. |
| `Naming.LocalPathInjective` | nyc_tlc_scraper/tlc_downloader.py:97-103 | Distinct (type, year, month) triples, with years in 0..9999 and months in 1..12, give distinct local paths. |
| `Planner.NewDownloader` | nyc_tlc_scraper/tlc_downloader.py:10-20 | The default configuration has a base URL ending in `/` and four distinct data types, each a plain path segment. |
| `Planner.PlanTasks` | nyc_tlc_scraper/tlc_downloader.py:92-105 | The nested loops build exactly `Plan(types, dates)`: one task per (type, month) pair, pairing the URL with the local path. |
| `Planner.Cross` | nyc_tlc_scraper/tlc_downloader.py:95-100 | Every pair the loops visit combines a listed data type with a month of the range. |
| `Planner.PlanLength` | nyc_tlc_scraper/tlc_downloader.py:95-105 | The task list has exactly `len(data_types) * len(date_range)` entries. |
| `Planner.PlanAt` | nyc_tlc_scraper/tlc_downloader.py:95-105 | Type-major order: the task for the i-th data type and the j-th month is at position `i * len(date_range) + j`. |
| `Planner.CrossAt` | nyc_tlc_scraper/tlc_downloader.py:95-100 | The pair of the i-th type and j-th month sits at `i * len(date_range) + j`. |
| `Planner.PlanPathsDistinct` | nyc_tlc_scraper/tlc_downloader.py:97-105 | With distinct data types and the distinct months of a date range, no two tasks share a local path. |
| `Fetcher.SkipDownloadExactly` | nyc_tlc_scraper/tlc_downloader.py:59-62 | The skip predicate holds exactly when the file exists, is non-empty and the declared `content-length` equals its size. A missing header (read as 0) never causes a skip. |
| `Fetcher.RunAttempt` | nyc_tlc_scraper/tlc_downloader.py:52-75 | One attempt never yields False by itself and never deletes the file. It returns True without writing exactly when the skip predicate holds. A failed request is retried with the file untouched. An unreadable header for an existing file escapes. Otherwise the body decides: a full body returns True with the file holding it, a mid-stream `RequestException` is retried with the truncated file left, and an `OSError` escapes with the partial file. |
| `Fetcher.CutOffRetried` | nyc_tlc_scraper/tlc_downloader.py:52-75 | An attempt whose request fails, or whose stream breaks after a header that matches no non-empty file, is retried whatever the local file. It leaves the file as it was, or truncated to what the stream wrote. |
| `Fetcher.NotCutOffReturns` | nyc_tlc_scraper/tlc_downloader.py:55-73 | Every other attempt ends the loop for some local file: a full body or a disk error always ends it, and a broken stream ends it when the header is unreadable or matches the file. |
| `Fetcher.CutOffsRetried` | nyc_tlc_scraper/tlc_downloader.py:52-75 | A run of such attempts is a run of attempts caught as a `RequestException`, whatever files the earlier ones left. |
| `Fetcher.AfterRetried` | nyc_tlc_scraper/tlc_downloader.py:51-81 | After k attempts that are each caught as a `RequestException`, the run has slept `2^0..2^(k-1)`. It goes on from attempt k with the file those attempts left, which is the file attempt k's size check sees. |
| `Fetcher.RetriedThenReturns` | nyc_tlc_scraper/tlc_downloader.py:51-81 | After k such attempts, the first attempt that ends the loop decides the run: its outcome and file, after k+1 attempts and the sleeps `2^0..2^(k-1)`. |
| `Fetcher.DownloadFile` | nyc_tlc_scraper/tlc_downloader.py:49-83 | The retry loop's outcome, sleeps, final file and attempt count are exactly those of the reference `Fetch`. |
| `Fetcher.FetchShapeFrom` | nyc_tlc_scraper/tlc_downloader.py:51-81 | From any attempt on, at most the remaining attempts are made, and the delays are `2^attempt, 2^(attempt+1), ...`, one fewer than the attempts made. False comes only after the last allowed attempt, and the file is never deleted. |
| `Fetcher.FetchShape` | nyc_tlc_scraper/tlc_downloader.py:51-83 | At most `max_retries` attempts are made. With `max_retries <= 0` there are none, and the result is False. The sleeps are `2^0, ..., 2^(n-2)` for n attempts, with none after the last. False means every allowed attempt was used. The file is never deleted, and whenever the result is True a file is left on disk. |
| `Fetcher.SucceedsAfterFailures` | nyc_tlc_scraper/tlc_downloader.py:51-81 | If each of the first k attempts is caught as a `RequestException`, before the stream or during it and whatever the declared length, and attempt k+1 gets the whole file, the result is True after exactly k+1 attempts, with sleeps `2^0..2^(k-1)` totalling `2^k - 1`. The exception is an existing file with an unreadable header. That attempt skips exactly when the file the earlier attempts left matches the declared size. |
| `Fetcher.AllAttemptsFail` | nyc_tlc_scraper/tlc_downloader.py:75-83 | If every attempt is caught as a `RequestException`, before the stream or during it and whatever the declared length, the result is False after exactly `max_retries` attempts and `max_retries - 1` sleeps. The file left is the one the attempts produced: the last attempt's truncated file when it streamed, and the original file when every request failed before streaming. |
| `Fetcher.CutOffScenarios` | nyc_tlc_scraper/tlc_downloader.py:51-83 | Attempts that fail whatever the file, repeated `max_retries` times, give False with the sleeps `2^0..2^(n-2)` and the last truncated file on disk. |
| `Fetcher.FirstResponse` | nyc_tlc_scraper/tlc_downloader.py:55-73 | A first response with a full body skips exactly when the skip predicate holds, and then writes nothing. It raises exactly for an existing file with an unreadable header. Otherwise it overwrites the file with the full body, including on a size mismatch, for an empty file, or with a missing header. |
| `Fetcher.RerunSkips` | nyc_tlc_scraper/tlc_downloader.py:58-64 | After a run that downloaded a non-empty file, a second run against the file it left, whose server declares that file's size, returns True on its first attempt and writes nothing. |
| `Fetcher.BackoffTotal` | nyc_tlc_scraper/tlc_downloader.py:81 | The sleeps before attempt k+1 total `2^k - 1` seconds. |
| `Scheduler.Tally` | nyc_tlc_scraper/tlc_downloader.py:114-137 | The success counter equals the number of True outcomes. Successes plus failures equal the number of completed tasks, so every task is counted once. |
| `Scheduler.TallyOrderIndependent` | nyc_tlc_scraper/tlc_downloader.py:125-137 | Any reordering of the outcomes, as `as_completed` may deliver them, gives the same counts. |
| `Scheduler.CountAllSucceeded` | nyc_tlc_scraper/tlc_downloader.py:125-137 | The success count is at most the number of tasks. It equals that number exactly when every task returned True. |
| `Scheduler.OneFailure` | nyc_tlc_scraper/tlc_downloader.py:125-137 | If exactly one of N tasks fails, the count is N-1 successes and 1 failure. |
| `Scheduler.RunTasks` | nyc_tlc_scraper/tlc_downloader.py:117-122 | Every task runs exactly once through `download_file` with 3 attempts, and files no task names are untouched. Every task that returned True has its file on disk. With distinct paths, each task's outcome and final file are the ones it gets on its own against the files as they were. |
| `Scheduler.DownloadData` | nyc_tlc_scraper/tlc_downloader.py:85-145 | It fails, changing no file, exactly when the date walk overflows, the range is empty (line 109) or `max_workers <= 0`. Otherwise successes plus failures equal `len(data_types) * len(date_range)`. With distinct data types, the success count is the number of tasks that succeed on their own, and each task's file is the one it leaves on its own. Every task that succeeds on its own has its file on disk. Files no task names are untouched. |

## Left out

- `datetime.now()` and `timedelta(days=years_back * 365)` (lines 27-28): the window is given as its first and last month. The day and the time of day are left out, and so is the leap-year drift of 365-day years. A fractional `years_back` gives `start_date` a different time of day from `end_date`. The walk can then pass `end_date` within the last month and drop that month. The model, which compares months only, keeps it.
- HTTP (`requests.get`, `raise_for_status`, the 300-second timeout, `iter_content` in 8192-byte chunks): each attempt is an `Attempt` value.
- The file writes: a body is reduced to the number of bytes it left in the file.
- `Fetcher.RunAttempt`: a disk error is always taken to have truncated the file first. An `open` that fails, and so leaves an earlier file as it was, is not told apart.
- `Fetcher.RemoteSize`: the text of the `content-length` header is not modelled. It is either a number, absent, or something `int` rejects.
- `os.makedirs` (lines 23, 98) and `os.path.exists` / `os.path.getsize` as system calls: the directory is a map from path to size, and creating directories is not modelled.
- `ThreadPoolExecutor` and `as_completed` (lines 117-125): tasks run one after another in submission order. `Scheduler.TallyOrderIndependent` covers any completion order, and `max_workers` is checked only for the `ValueError` it raises when not positive. Overlapping writes to one path, which only repeated data types cause, are not modelled.
- `time.sleep` (line 81): the delays are recorded instead.
- `list_available_files` (lines 147-167) and the `__main__` integrity scan (lines 170-200): reporting only.
- All `print` output.
- `Naming.DownloadUrl`: `urljoin` is modelled only as appending the file name to a base that ends in `/`, and only for data types made of letters, digits, `_` and `-`. Appending is what `urljoin` does for the downloader's fixed base. For a base whose path has empty (`//`) or dot (`.`, `..`) segments, or that carries params, a query or a fragment, `urljoin` also rewrites the base, and the model does not follow that. Other data types are excluded by its precondition, although `urljoin` appends many of them unchanged too. It resolves a name differently, for example, when it starts with `/` or `//`, holds `//` anywhere (empty segments are dropped), has a `.` or `..` path segment, or starts like a URL scheme (a letter, then letters, digits, `+`, `-` or `.`, then `:`). It also strips leading spaces and control characters, and removes tabs and line breaks anywhere. `Scheduler.DownloadData` asks the same of explicitly given data types.
- `Naming.JoinPath`: local paths follow POSIX `os.path.join` (separator `/`, an absolute second part replaces the first). Windows `ntpath.join`, with `\` separators and drive letters, is not modelled.
- `Naming.LocalPathInjective`: distinct paths are proved for years 0..9999 only, the range a `datetime` and the four-digit format share.
