/**
 * The retry and skip logic of `download_file`: a bounded attempt loop with
 * exponential back-off, and a skip when the local file already has the size
 * the server declares. The network is replaced by the outcome of each
 * attempt, the local file by its size (`None` when absent), and the sleeps
 * by the list of delays.
 */
module Fetcher {
  import opened Wrappers

  /** The `content-length` header as `int(response.headers.get('content-length', 0))` reads it. */
  datatype Header =
    | NoLength          // header absent: the default 0 is used
    | Length(n: int)    // header present and read by `int`
    | Unparsable        // header present but `int` raises ValueError

  /** How streaming the body into the local file ended (the file is truncated first). */
  datatype Body =
    | Complete(size: nat)          // every chunk written: the file holds `size` bytes
    | Interrupted(written: nat)    // a RequestException while streaming, after `written` bytes
    | DiskError(written: nat)      // an OSError while writing, after `written` bytes

  /** What one attempt meets on the network. */
  datatype Attempt =
    | RequestFailed                         // `requests.get` or `raise_for_status` raised a RequestException
    | Responded(length: Header, body: Body)

  /**
   * How `download_file` ends: it returns True (`Downloaded`, `AlreadyPresent`),
   * returns False (`Failed`), or lets an exception other than a
   * RequestException escape (`Raised`).
   */
  datatype FetchOutcome = Downloaded | AlreadyPresent | Failed | Raised

  /** The outcomes for which `download_file` returns True. */
  predicate Succeeded(o: FetchOutcome) {
    o.Downloaded? || o.AlreadyPresent?
  }

  /** The remote size the skip check compares against; `None` when reading it raises. */
  function RemoteSize(h: Header): Option<int> {
    match h
    case NoLength => Some(0)
    case Length(n) => Some(n)
    case Unparsable => None
  }

  /** The skip predicate of lines 59-62. */
  predicate SkipDownload(local: Option<nat>, h: Header) {
    local.Some? && RemoteSize(h) == Some(local.value) && local.value > 0
  }

  /**
   * The skip predicate holds exactly when the file exists, is non-empty and
   * the server declares its exact size; a missing header never causes a skip.
   */
  lemma SkipDownloadExactly(local: Option<nat>, h: Header)
    ensures SkipDownload(local, h) <==> local.Some? && local.value > 0 && h == Length(local.value)
    ensures !SkipDownload(local, NoLength)
  {
  }

  /** The size of the local file once streaming the body has stopped. */
  function BytesWritten(b: Body): nat {
    match b
    case Complete(n) => n
    case Interrupted(w) => w
    case DiskError(w) => w
  }

  /** How the `try` block of one attempt ends, with the local file afterwards. */
  datatype AttemptEnd =
    | Returned(outcome: FetchOutcome, after: Option<nat>)   // returns, or an exception escapes the loop
    | RequestError(after: Option<nat>)                      // caught at line 75: retry or give up

  /**
   * The `try` block of lines 52-73. The size check runs only when the file
   * exists, so an unreadable header matters only then. A skip writes
   * nothing; otherwise the file is rewritten from the start, and no path
   * deletes it.
   */
  function RunAttempt(a: Attempt, local: Option<nat>): (e: AttemptEnd)
    ensures e.Returned? ==> e.outcome != Failed
    ensures e.after.None? ==> local.None?
    ensures e == Returned(AlreadyPresent, local) <==> a.Responded? && SkipDownload(local, a.length)
    // a RequestException before the body is read: retried, file untouched
    ensures a.RequestFailed? ==> e == RequestError(local)
    // reading the header of an existing file raises ValueError, which escapes
    ensures a.Responded? && local.Some? && RemoteSize(a.length).None? ==> e == Returned(Raised, local)
    // past the skip check, the body decides: True, a retry, or an escaping OSError
    ensures a.Responded? && !SkipDownload(local, a.length) && (local.None? || RemoteSize(a.length).Some?) ==>
              match a.body
              case Complete(n) => e == Returned(Downloaded, Some(n))
              case Interrupted(w) => e == RequestError(Some(w))
              case DiskError(w) => e == Returned(Raised, Some(w))
  {
    match a
    case RequestFailed => RequestError(local)
    case Responded(h, body) =>
      if local.Some? && RemoteSize(h).None? then Returned(Raised, local)
      else if SkipDownload(local, h) then Returned(AlreadyPresent, local)
      else match body
        case Complete(n) => Returned(Downloaded, Some(n))
        case Interrupted(w) => RequestError(Some(w))
        case DiskError(w) => Returned(Raised, Some(w))
  }

  function Pow2(k: nat): (p: nat)
    ensures p >= 1
  {
    if k == 0 then 1 else 2 * Pow2(k - 1)
  }

  /** The sleeps `2^first`, `2^(first + 1)`, ..., `count` of them. */
  function BackoffFrom(first: nat, count: nat): (s: seq<nat>)
    ensures |s| == count
    decreases count
  {
    if count == 0 then [] else [Pow2(first)] + BackoffFrom(first + 1, count - 1)
  }

  /** The back-off list grows by the next power of two at its end. */
  lemma {:induction false} BackoffFromStep(first: nat, count: nat)
    ensures BackoffFrom(first, count + 1) == BackoffFrom(first, count) + [Pow2(first + count)]
    decreases count
  {
    if count > 0 {
      BackoffFromStep(first + 1, count - 1);
    }
  }

  /** The sleeps after the first `count` failed attempts: `2^0, ..., 2^(count - 1)`. */
  function Backoff(count: nat): seq<nat> {
    BackoffFrom(0, count)
  }

  function Sum(s: seq<nat>): nat {
    if s == [] then 0 else Sum(s[..|s| - 1]) + s[|s| - 1]
  }

  /** The total back-off before attempt `k + 1` is `2^k - 1` seconds. */
  lemma {:induction false} BackoffTotal(k: nat)
    ensures Sum(Backoff(k)) == Pow2(k) - 1
  {
    if k > 0 {
      BackoffFromStep(0, k - 1);
      assert Backoff(k)[..k - 1] == Backoff(k - 1);
      BackoffTotal(k - 1);
    }
  }

  /** Everything one call of `download_file` produces in the model. */
  datatype FetchResult = FetchResult(outcome: FetchOutcome, delays: seq<nat>, local: Option<nat>, attempts: nat)

  function WithDelays(ds: seq<nat>, r: FetchResult): FetchResult {
    r.(delays := ds + r.delays)
  }

  /**
   * Reference definition of the loop `for attempt in range(max_retries)`, from
   * attempt number `attempt` on: after a RequestException it sleeps `2^attempt`
   * and retries, except after the last attempt, where it returns False.
   * `attempts` counts the attempts made since the first.
   */
  function Fetch(maxRetries: int, respond: nat -> Attempt, local: Option<nat>, attempt: nat): FetchResult
    decreases if attempt < maxRetries then maxRetries - attempt else 0
  {
    if maxRetries <= attempt then FetchResult(Failed, [], local, attempt)
    else match RunAttempt(respond(attempt), local)
      case Returned(o, after) => FetchResult(o, [], after, attempt + 1)
      case RequestError(after) =>
        if attempt == maxRetries - 1 then FetchResult(Failed, [], after, attempt + 1)
        else WithDelays([Pow2(attempt)], Fetch(maxRetries, respond, after, attempt + 1))
  }

  lemma WithDelaysAppend(ds: seq<nat>, d: nat, r: FetchResult)
    ensures WithDelays(ds, WithDelays([d], r)) == WithDelays(ds + [d], r)
  {
    assert ds + ([d] + r.delays) == (ds + [d]) + r.delays;
  }

  /** One attempt of the loop, as `Fetch` takes it. */
  lemma FetchStep(maxRetries: int, respond: nat -> Attempt, local: Option<nat>, attempt: nat)
    requires attempt < maxRetries
    ensures var e := RunAttempt(respond(attempt), local);
      && (e.Returned? ==> Fetch(maxRetries, respond, local, attempt) == FetchResult(e.outcome, [], e.after, attempt + 1))
      && (e.RequestError? && attempt == maxRetries - 1 ==>
            Fetch(maxRetries, respond, local, attempt) == FetchResult(Failed, [], e.after, attempt + 1))
      && (e.RequestError? && attempt < maxRetries - 1 ==>
            Fetch(maxRetries, respond, local, attempt)
            == WithDelays([Pow2(attempt)], Fetch(maxRetries, respond, e.after, attempt + 1)))
  {
  }

  /**
   * `download_file(url, local_path, max_retries)`. `respond(i)` is what
   * attempt `i` meets; the delays are the arguments of the `time.sleep` calls.
   */
  method DownloadFile(maxRetries: int, respond: nat -> Attempt, local: Option<nat>)
    returns (outcome: FetchOutcome, delays: seq<nat>, after: Option<nat>, attempts: nat)
    ensures FetchResult(outcome, delays, after, attempts) == Fetch(maxRetries, respond, local, 0)
  {
    delays, after := [], local;
    var attempt: nat := 0;
    while attempt < maxRetries
      invariant attempt > 0 ==> attempt < maxRetries
      invariant Fetch(maxRetries, respond, local, 0) == WithDelays(delays, Fetch(maxRetries, respond, after, attempt))
      decreases maxRetries - attempt
    {
      attempts := attempt + 1;
      var e := RunAttempt(respond(attempt), after);
      FetchStep(maxRetries, respond, after, attempt);
      if e.Returned? {
        assert delays + [] == delays;
        outcome, after := e.outcome, e.after;
        return;
      }
      if attempt == maxRetries - 1 {
        assert delays + [] == delays;
        outcome, after := Failed, e.after;
        return;
      }
      WithDelaysAppend(delays, Pow2(attempt), Fetch(maxRetries, respond, e.after, attempt + 1));
      after := e.after;
      delays := delays + [Pow2(attempt)];
      attempt := attempt + 1;
    }
    outcome, attempts := Failed, attempt;
  }

  /**
   * The shape of every run from attempt `attempt` on: at most the remaining
   * attempts are made, the delays are `2^attempt, 2^(attempt + 1), ...` with
   * none after the last attempt made, False comes only once every attempt
   * is used, and the local file is never deleted.
   */
  lemma {:induction false} FetchShapeFrom(maxRetries: int, respond: nat -> Attempt, local: Option<nat>, attempt: nat)
    requires attempt < maxRetries
    ensures var r := Fetch(maxRetries, respond, local, attempt);
      && attempt < r.attempts <= maxRetries
      && r.delays == BackoffFrom(attempt, r.attempts - 1 - attempt)
      && (r.outcome == Failed ==> r.attempts == maxRetries)
      && (r.local.None? ==> local.None?)
      && (Succeeded(r.outcome) ==> r.local.Some?)
    decreases maxRetries - attempt
  {
    match RunAttempt(respond(attempt), local)
    case Returned(o, after) =>
    case RequestError(after) =>
      if attempt < maxRetries - 1 {
        FetchShapeFrom(maxRetries, respond, after, attempt + 1);
        var rest := Fetch(maxRetries, respond, after, attempt + 1);
      }
  }

  /**
   * `download_file` makes at most `max_retries` attempts and none when
   * `max_retries <= 0` (returning False); it sleeps `2^i` after failed
   * attempt `i` except the last one made; it returns False only after using
   * every attempt; it never deletes the local file.
   */
  lemma FetchShape(maxRetries: int, respond: nat -> Attempt, local: Option<nat>)
    ensures var r := Fetch(maxRetries, respond, local, 0);
      && (maxRetries <= 0 ==> r == FetchResult(Failed, [], local, 0))
      && (maxRetries > 0 ==> 1 <= r.attempts <= maxRetries && r.delays == Backoff(r.attempts - 1))
      && (r.outcome == Failed ==> r.attempts == if maxRetries > 0 then maxRetries else 0)
      && (r.local.None? ==> local.None?)
      && (Succeeded(r.outcome) ==> r.local.Some?)
  {
    if maxRetries > 0 {
      FetchShapeFrom(maxRetries, respond, local, 0);
    }
  }

  /**
   * Attempts that end in a RequestException whatever the local file is: the
   * request fails outright, or the body is cut off mid-stream after a header
   * that can match no non-empty file (absent, or at most 0).
   */
  predicate CutOff(a: Attempt) {
    a.RequestFailed?
    || (a.Responded? && a.body.Interrupted? && (a.length == NoLength || (a.length.Length? && a.length.n <= 0)))
  }

  /** A cut-off attempt is retried, leaving the truncated file of a cut-off stream behind. */
  lemma CutOffRetried(a: Attempt, local: Option<nat>)
    requires CutOff(a)
    ensures RunAttempt(a, local) == RequestError(if a.RequestFailed? then local else Some(a.body.written))
  {
  }

  /** Every other attempt ends the loop for some local file: `CutOff` is exactly "always retried". */
  lemma NotCutOffReturns(a: Attempt) returns (local: Option<nat>)
    requires !CutOff(a)
    ensures RunAttempt(a, local).Returned?
  {
    match a
    case RequestFailed =>
    case Responded(h, body) =>
      if body.Interrupted? {
        if h == Unparsable {
          local := Some(0);
        } else {
          local := Some(h.n);
          assert SkipDownload(local, h);
        }
      } else {
        local := None;
      }
  }

  /**
   * The local file after the first `k` attempts, each of them caught as a
   * RequestException: a failed request leaves it, a broken stream truncates it.
   */
  function Files(respond: nat -> Attempt, local: Option<nat>, k: nat): Option<nat> {
    if k == 0 then local else RunAttempt(respond(k - 1), Files(respond, local, k - 1)).after
  }

  /** Attempt `i` is caught as a RequestException, given the file the earlier attempts left. */
  predicate Retried(respond: nat -> Attempt, local: Option<nat>, i: nat) {
    RunAttempt(respond(i), Files(respond, local, i)).RequestError?
  }

  /** Cut-off attempts are retried whatever the file, so a run of them is a run of retried attempts. */
  lemma CutOffsRetried(respond: nat -> Attempt, local: Option<nat>, k: nat)
    requires forall i :: 0 <= i < k ==> CutOff(respond(i))
    ensures forall i :: 0 <= i < k ==> Retried(respond, local, i)
  {
    forall i | 0 <= i < k
      ensures Retried(respond, local, i)
    {
      CutOffRetried(respond(i), Files(respond, local, i));
    }
  }

  /** After failed requests only, the local file is as it was. */
  lemma {:induction false} FilesOfFailedRequests(respond: nat -> Attempt, local: Option<nat>, k: nat)
    requires forall i :: 0 <= i < k ==> respond(i) == RequestFailed
    ensures Files(respond, local, k) == local
  {
    if k > 0 {
      FilesOfFailedRequests(respond, local, k - 1);
    }
  }

  /**
   * `k` retried attempts cost the back-off `2^0, ..., 2^(k - 1)`; the run goes
   * on from attempt `k` with the file they left, which is what the size
   * check of attempt `k` sees.
   */
  lemma {:induction false} AfterRetried(maxRetries: int, respond: nat -> Attempt, local: Option<nat>, k: nat)
    requires k < maxRetries
    requires forall i :: 0 <= i < k ==> Retried(respond, local, i)
    ensures Fetch(maxRetries, respond, local, 0)
            == WithDelays(Backoff(k), Fetch(maxRetries, respond, Files(respond, local, k), k))
  {
    if k > 0 {
      var before, after := Files(respond, local, k - 1), Files(respond, local, k);
      var rest := Fetch(maxRetries, respond, after, k);
      calc {
        Fetch(maxRetries, respond, local, 0);
        { AfterRetried(maxRetries, respond, local, k - 1); }
        WithDelays(Backoff(k - 1), Fetch(maxRetries, respond, before, k - 1));
        { assert Retried(respond, local, k - 1);
          assert after == RunAttempt(respond(k - 1), before).after;
          FetchStep(maxRetries, respond, before, k - 1); }
        WithDelays(Backoff(k - 1), WithDelays([Pow2(k - 1)], rest));
        { WithDelaysAppend(Backoff(k - 1), Pow2(k - 1), rest); }
        WithDelays(Backoff(k - 1) + [Pow2(k - 1)], rest);
        { BackoffFromStep(0, k - 1); }
        WithDelays(Backoff(k), rest);
      }
    }
  }

  /**
   * After `k` retried attempts, the first attempt that ends the loop decides:
   * its outcome and file are the run's, after `k + 1` attempts and the
   * sleeps `2^0, ..., 2^(k - 1)`.
   */
  lemma RetriedThenReturns(maxRetries: int, respond: nat -> Attempt, local: Option<nat>, k: nat)
    requires k < maxRetries
    requires forall i :: 0 <= i < k ==> Retried(respond, local, i)
    requires RunAttempt(respond(k), Files(respond, local, k)).Returned?
    ensures var e := RunAttempt(respond(k), Files(respond, local, k));
      Fetch(maxRetries, respond, local, 0) == FetchResult(e.outcome, Backoff(k), e.after, k + 1)
  {
    AfterRetried(maxRetries, respond, local, k);
    assert Backoff(k) + [] == Backoff(k);
  }

  /**
   * A server that makes the first `k` attempts fail with a RequestException,
   * before or during the stream, and then sends the whole file yields True on
   * attempt `k + 1`, after sleeping `2^0, ..., 2^(k - 1)`, `2^k - 1` seconds in
   * all. The size check of that attempt sees the file the earlier attempts
   * left. (Only a present file with an unreadable `content-length` makes it
   * raise instead.)
   */
  lemma SucceedsAfterFailures(maxRetries: int, respond: nat -> Attempt, local: Option<nat>, k: nat, h: Header, size: nat)
    requires k < maxRetries
    requires forall i :: 0 <= i < k ==> Retried(respond, local, i)
    requires respond(k) == Responded(h, Complete(size))
    requires Files(respond, local, k).None? || RemoteSize(h).Some?
    ensures var r := Fetch(maxRetries, respond, local, 0);
      && Succeeded(r.outcome)
      && r.attempts == k + 1
      && r.delays == Backoff(k)
      && Sum(r.delays) == Pow2(k) - 1
      && (r.outcome == AlreadyPresent <==> SkipDownload(Files(respond, local, k), h))
      && (r.outcome == Downloaded ==> r.local == Some(size))
      && (r.outcome == AlreadyPresent ==> r.local == Files(respond, local, k))
  {
    RetriedThenReturns(maxRetries, respond, local, k);
    BackoffTotal(k);
  }

  /**
   * A server that makes every attempt fail with a RequestException: False
   * after exactly `max_retries` attempts and `max_retries - 1` sleeps, with
   * the file the last attempt left on disk: the one its broken stream
   * truncated, or the original file when every request failed before
   * streaming.
   */
  lemma AllAttemptsFail(maxRetries: int, respond: nat -> Attempt, local: Option<nat>)
    requires maxRetries > 0
    requires forall i :: 0 <= i < maxRetries ==> Retried(respond, local, i)
    ensures var r := Fetch(maxRetries, respond, local, 0);
      && r.outcome == Failed
      && r.attempts == maxRetries
      && r.delays == Backoff(maxRetries - 1)
      && r.local == Files(respond, local, maxRetries)
      && (respond(maxRetries - 1).Responded? ==> r.local == Some(BytesWritten(respond(maxRetries - 1).body)))
      && ((forall i :: 0 <= i < maxRetries ==> respond(i) == RequestFailed) ==> r.local == local)
  {
    var n := maxRetries - 1;
    AfterRetried(maxRetries, respond, local, n);
    assert Retried(respond, local, n);
    assert Backoff(n) + [] == Backoff(n);
    if forall i :: 0 <= i < maxRetries ==> respond(i) == RequestFailed {
      FilesOfFailedRequests(respond, local, maxRetries);
    }
  }

  /** The same two scenarios for cut-off attempts, which fail whatever the file. */
  lemma CutOffScenarios(maxRetries: int, respond: nat -> Attempt, local: Option<nat>)
    requires maxRetries > 0
    requires forall i :: 0 <= i < maxRetries ==> CutOff(respond(i))
    ensures var r := Fetch(maxRetries, respond, local, 0);
      && r == FetchResult(Failed, Backoff(maxRetries - 1), Files(respond, local, maxRetries), maxRetries)
      && (respond(maxRetries - 1).Responded? ==> r.local == Some(BytesWritten(respond(maxRetries - 1).body)))
  {
    CutOffsRetried(respond, local, maxRetries);
    AllAttemptsFail(maxRetries, respond, local);
  }

  /**
   * The first response decides: it is a skip exactly when the predicate holds,
   * writing nothing; a size mismatch, an empty file or a missing header leads
   * to a full download that overwrites the file.
   */
  lemma FirstResponse(maxRetries: int, respond: nat -> Attempt, local: Option<nat>, h: Header, size: nat)
    requires maxRetries > 0
    requires respond(0) == Responded(h, Complete(size))
    ensures var r := Fetch(maxRetries, respond, local, 0);
      && r.attempts == 1 && r.delays == []
      && (r.outcome == AlreadyPresent <==> SkipDownload(local, h))
      && (r.outcome == AlreadyPresent ==> r.local == local)
      && (r.outcome == Raised <==> local.Some? && h == Unparsable)
      && (r.outcome == Downloaded <==> !SkipDownload(local, h) && (local.None? || h != Unparsable))
      && (r.outcome == Downloaded ==> r.local == Some(size))
  {
  }

  /**
   * Idempotence: once a run has downloaded a non-empty file, a second run
   * whose first response declares the size of the file the first run left
   * skips it without writing.
   */
  lemma RerunSkips(maxRetries: int, first: nat -> Attempt, second: nat -> Attempt, local: Option<nat>, b: Body)
    requires maxRetries > 0
    requires var r := Fetch(maxRetries, first, local, 0);
      r.outcome == Downloaded && r.local.Some? && r.local.value > 0
    requires second(0) == Responded(Length(Fetch(maxRetries, first, local, 0).local.value), b)
    ensures var kept := Fetch(maxRetries, first, local, 0).local;
      Fetch(maxRetries, second, kept, 0) == FetchResult(AlreadyPresent, [], kept, 1)
  {
  }
}
