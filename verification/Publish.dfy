/**
 * Publishing: each package in dependency order, each with a bounded number
 * of retries and a doubling back-off between attempts. The `cargo publish`
 * subprocess is an oracle `publish(package, attempt)`; the sleeps are a
 * ghost log of delays in seconds.
 */
module Publish {
  import opened Wrappers
  import opened Manifest
  import opened Discovery
  import opened PublishOrder

  /** What one `cargo publish` run gives: success, or failure with its standard error. */
  datatype Outcome = Published | Failed(message: string)

  /** `PublishResult` */
  datatype PublishResult = PublishResult(packageName: string, success: bool, error: Option<string>, retries: nat)

  /** The oracle standing for `publish_single_package`: the outcome of the attempt with this number. */
  type Publisher = (Package, nat) -> Outcome

  function Pow2(n: nat): (p: nat)
    ensures p >= 1
  {
    if n == 0 then 1 else 2 * Pow2(n - 1)
  }

  /**
   * What the retry loop returns once attempts `attempt..maxRetries` remain,
   * `lastError` holding the message of the previous failure.
   */
  function RetryFrom(p: Package, maxRetries: nat, publish: Publisher, attempt: nat, lastError: Option<string>): PublishResult
    decreases maxRetries + 1 - attempt
  {
    if attempt > maxRetries then PublishResult(p.name, false, lastError, attempt - 1)
    else match publish(p, attempt)
      case Published => PublishResult(p.name, true, None, attempt)
      case Failed(message) => RetryFrom(p, maxRetries, publish, attempt + 1, Some(message))
  }

  /** `publish_package_with_retry` as a function of the oracle. */
  function Retry(p: Package, maxRetries: nat, publish: Publisher): PublishResult
  {
    RetryFrom(p, maxRetries, publish, 0, None)
  }

  /** How many times the loop runs the oracle before it returns `r`. */
  function Calls(r: PublishResult, maxRetries: nat): nat
  {
    if r.success then r.retries + 1 else maxRetries + 1
  }

  /** The sleeps after the first `n` failures: 2, 4, ..., 2^n seconds. */
  function Backoff(n: nat): (delays: seq<nat>)
    ensures |delays| == n
    ensures forall k :: 0 <= k < n ==> delays[k] == Pow2(k + 1)
  {
    seq(n, k requires 0 <= k < n => Pow2(k + 1))
  }

  /** Each sleep is twice the one before, starting from 2 seconds. */
  lemma BackoffDoubles(n: nat)
    ensures n > 0 ==> Backoff(n)[0] == 2
    ensures forall k :: 0 < k < n ==> Backoff(n)[k] == 2 * Backoff(n)[k - 1]
  {
  }

  lemma {:induction false} Pow2Monotone(a: nat, b: nat)
    requires a <= b
    ensures Pow2(a) <= Pow2(b)
    decreases b
  {
    if a < b {
      Pow2Monotone(a, b - 1);
    }
  }

  /** With fewer than 64 retries, `2_u64.pow(attempt)` never overflows. */
  lemma BackoffFitsU64(n: nat)
    requires n < 64
    ensures forall k :: 0 <= k < n ==> Backoff(n)[k] < Pow2(64)
  {
    forall k | 0 <= k < n
      ensures Backoff(n)[k] < Pow2(64)
    {
      Pow2Monotone(k + 1, 63);
    }
  }

  /**
   * The result once attempts from `attempt` on are left: a success at the
   * first attempt that publishes, and otherwise a failure after the last
   * allowed attempt, reporting `maxRetries` retries and the last message.
   */
  lemma {:induction false} RetryFromOutcome(p: Package, maxRetries: nat, publish: Publisher, attempt: nat,
                                            lastError: Option<string>)
    requires attempt <= maxRetries + 1
    requires attempt == 0 <==> lastError.None?
    ensures var r := RetryFrom(p, maxRetries, publish, attempt, lastError);
            && r.packageName == p.name
            && (r.success ==>
                  && attempt <= r.retries <= maxRetries
                  && publish(p, r.retries) == Published
                  && r.error.None?
                  && forall a :: attempt <= a < r.retries ==> publish(p, a).Failed?)
            && (!r.success ==>
                  && r.retries == maxRetries
                  && (forall a :: attempt <= a <= maxRetries ==> publish(p, a).Failed?)
                  && r.error == (if attempt <= maxRetries then Some(publish(p, maxRetries).message) else lastError))
    decreases maxRetries + 1 - attempt
  {
    if attempt <= maxRetries && publish(p, attempt).Failed? {
      RetryFromOutcome(p, maxRetries, publish, attempt + 1, Some(publish(p, attempt).message));
    }
  }

  /**
   * `publish_package_with_retry` succeeds exactly when one of the attempts
   * `0..maxRetries` publishes; `retries` is then the number of failures
   * before it, and otherwise `maxRetries`, with the last failure's message.
   */
  lemma RetrySemantics(p: Package, maxRetries: nat, publish: Publisher)
    ensures var r := Retry(p, maxRetries, publish);
            && r.packageName == p.name
            && (r.success <==> exists a :: 0 <= a <= maxRetries && publish(p, a) == Published)
            && (r.success ==>
                  && r.retries <= maxRetries && r.error.None? && publish(p, r.retries) == Published
                  && forall a :: 0 <= a < r.retries ==> publish(p, a).Failed?)
            && (!r.success ==>
                  r.retries == maxRetries && r.error == Some(publish(p, maxRetries).message))
  {
    RetryFromOutcome(p, maxRetries, publish, 0, None);
    if !Retry(p, maxRetries, publish).success {
      forall a | 0 <= a <= maxRetries
        ensures publish(p, a) != Published
      {
      }
    }
  }

  /** The oracle is run at most `maxRetries + 1` times, and once more than there are retries. */
  lemma CallsBound(p: Package, maxRetries: nat, publish: Publisher)
    ensures var r := Retry(p, maxRetries, publish);
            Calls(r, maxRetries) <= maxRetries + 1 && Calls(r, maxRetries) == r.retries + 1
  {
    RetrySemantics(p, maxRetries, publish);
  }

  /**
   * `publish_package_with_retry`: the attempts the oracle sees are `0, 1, ...`
   * in order, one per call, and after each failure but the last one allowed it
   * sleeps 2^attempt seconds.
   */
  method PublishWithRetry(p: Package, maxRetries: nat, publish: Publisher)
    returns (r: PublishResult, ghost attempts: seq<nat>, ghost delays: seq<nat>)
    requires maxRetries < 64
    ensures r == Retry(p, maxRetries, publish)
    ensures |attempts| == Calls(r, maxRetries) && forall k :: 0 <= k < |attempts| ==> attempts[k] == k
    ensures delays == Backoff(r.retries)
  {
    var attempt: nat := 0;
    var lastError: Option<string> := None;
    attempts, delays := [], [];
    while attempt <= maxRetries
      invariant attempt <= maxRetries + 1
      invariant attempt == 0 <==> lastError.None?
      invariant RetryFrom(p, maxRetries, publish, attempt, lastError) == Retry(p, maxRetries, publish)
      invariant |attempts| == attempt && forall k :: 0 <= k < attempt ==> attempts[k] == k
      invariant delays == Backoff(if attempt <= maxRetries then attempt else maxRetries)
      decreases maxRetries + 1 - attempt
    {
      var outcome := publish(p, attempt);
      attempts := attempts + [attempt];
      match outcome {
        case Published =>
          return PublishResult(p.name, true, None, attempt), attempts, delays;
        case Failed(message) =>
          lastError := Some(message);
          attempt := attempt + 1;
          if attempt <= maxRetries {
            delays := delays + [Pow2(attempt)];
          }
      }
    }
    r := PublishResult(p.name, false, lastError, attempt - 1);
  }

  /** One result per package, in order, each the outcome of its own retry loop. */
  function Results(sorted: seq<Package>, maxRetries: nat, publish: Publisher): (results: seq<PublishResult>)
    ensures |results| == |sorted|
    ensures forall i :: 0 <= i < |sorted| ==> results[i] == Retry(sorted[i], maxRetries, publish)
  {
    seq(|sorted|, i requires 0 <= i < |sorted| => Retry(sorted[i], maxRetries, publish))
  }

  /** The names the oracle sees, package after package, one entry per call. */
  function CallLog(sorted: seq<Package>, maxRetries: nat, publish: Publisher): seq<string>
  {
    if |sorted| == 0 then []
    else
      var last := sorted[|sorted| - 1];
      CallLog(sorted[..|sorted| - 1], maxRetries, publish)
      + seq(Calls(Retry(last, maxRetries, publish), maxRetries), _ => last.name)
  }

  /** One more package adds its result and its calls at the end. */
  lemma LogsSnoc(sorted: seq<Package>, i: nat, maxRetries: nat, publish: Publisher)
    requires i < |sorted|
    ensures Results(sorted[..i + 1], maxRetries, publish)
            == Results(sorted[..i], maxRetries, publish) + [Retry(sorted[i], maxRetries, publish)]
    ensures CallLog(sorted[..i + 1], maxRetries, publish)
            == CallLog(sorted[..i], maxRetries, publish)
               + seq(Calls(Retry(sorted[i], maxRetries, publish), maxRetries), _ => sorted[i].name)
  {
    assert sorted[..i + 1][..i] == sorted[..i];
  }

  /**
   * `execute_publish`: discovery, then the sort, then one retry loop per
   * package in sorted order. An error from discovery or from the sort is
   * returned before the oracle is run at all.
   */
  method ExecutePublish(fs: FileSystem, root: Path, maxRetries: nat, publish: Publisher)
    returns (r: Result<seq<PublishResult>, PublishError>, ghost sorted: seq<Package>, ghost calls: seq<string>)
    requires maxRetries < 64
    ensures Discover(fs, root).Err? ==> r == Err(Discover(fs, root).error)
    ensures r.Err? ==> calls == []
    ensures r.Err? && Discover(fs, root).Ok? ==>
              var ps := Discover(fs, root).value;
              r.error == CircularDependency && (!DistinctNames(ps) || forall o :: !IsPublishOrder(o, ps))
    ensures r.Ok? ==>
              && Discover(fs, root).Ok?
              && IsPublishOrder(sorted, Discover(fs, root).value)
              && r.value == Results(sorted, maxRetries, publish)
              && calls == CallLog(sorted, maxRetries, publish)
  {
    calls := [];
    sorted := [];
    var discovered := DiscoverPackages(fs, root);
    if discovered.Err? {
      return Err(discovered.error), sorted, calls;
    }
    var packages := discovered.value;
    if |packages| == 0 {
      return Ok([]), sorted, calls;
    }
    var order := TopologicalSort(packages);
    if order.Err? {
      return Err(order.error), sorted, calls;
    }
    var packagesInOrder := order.value;
    sorted := packagesInOrder;
    var results: seq<PublishResult> := [];
    for i := 0 to |packagesInOrder|
      invariant results == Results(packagesInOrder[..i], maxRetries, publish)
      invariant calls == CallLog(packagesInOrder[..i], maxRetries, publish)
    {
      var package := packagesInOrder[i];
      var result, attempts, _ := PublishWithRetry(package, maxRetries, publish);
      LogsSnoc(packagesInOrder, i, maxRetries, publish);
      results := results + [result];
      calls := calls + seq(|attempts|, _ => package.name);
    }
    assert packagesInOrder[..|packagesInOrder|] == packagesInOrder;
    r := Ok(results);
  }

  /** `main` exits with status 1 when publishing fails or any package failed, and 0 otherwise. */
  function ExitStatus(r: Result<seq<PublishResult>, PublishError>): (status: int)
    ensures status == 0 <==> r.Ok? && forall i :: 0 <= i < |r.value| ==> r.value[i].success
    ensures status == 0 || status == 1
  {
    if r.Err? then 1
    else if exists i :: 0 <= i < |r.value| && !r.value[i].success then 1
    else 0
  }
}
