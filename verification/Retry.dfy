/** Bounded retries (libRetry/retry.go). */
module Retry {
  import opened Wrappers
  import opened Numbers

  /** A decoded response, with what it exposes through the optional provider interfaces. */
  datatype Response = Response(status: Option<int>, code: Option<int>, key: Option<string>)

  /** An error: whether the timeout predicate accepts it, and the status of a RemoteCallError in it. */
  datatype CallError = CallError(timeout: bool, remoteStatus: Option<int>)

  /** The sets hold what the policy's maps send to true. */
  datatype Policy = Policy(maxRetries: int, onTimeout: bool, statuses: set<int>, codes: set<int>, keys: set<string>)

  datatype Attempt = Attempt(resp: Option<Response>, status: int, err: Option<CallError>)

  datatype RetryResult = RetryResult(resp: Option<Response>, err: Option<CallError>, attempts: nat, lastStatus: int)

  function ShouldRetryResponse(p: Policy, resp: Option<Response>, status: int): bool {
    if resp.None? then false
    else
      || (status > 0 && status in p.statuses)
      || (resp.value.status.Some? && resp.value.status.value in p.statuses)
      || (resp.value.code.Some? && resp.value.code.value in p.codes)
      || (resp.value.key.Some? && resp.value.key.value in p.keys)
  }

  function ShouldRetryError(p: Policy, err: CallError, status: int): bool {
    || (p.onTimeout && err.timeout)
    || (err.remoteStatus.Some? && err.remoteStatus.value in p.statuses)
    || (status > 0 && status in p.statuses)
  }

  predicate Retryable(p: Policy, a: Attempt) {
    if a.err.None? then ShouldRetryResponse(p, a.resp, a.status) else ShouldRetryError(p, a.err.value, a.status)
  }

  /** The attempt budget, computed in an int64. */
  function Budget(p: Policy): int {
    if p.maxRetries == MAX_INT64 then -MAX_INT64 - 1 else p.maxRetries + 1
  }

  /** The n-th attempt was the last: nothing to retry, no budget left, or the sleep was cut short. */
  predicate Stops(p: Policy, attempt: nat -> Attempt, sleep: nat -> bool, n: nat) {
    n == Budget(p) || !Retryable(p, attempt(n)) || !sleep(n)
  }

  /**
    What a retry sequence comes to: it ends at the first attempt that stops it, with that
    attempt's response and status, and its error unless a cut sleep replaced it.
   */
  ghost predicate IsOutcome(p: Policy, attempt: nat -> Attempt, sleep: nat -> bool,
                            ctxErr: Option<CallError>, r: RetryResult)
  {
    var n := r.attempts;
    if Budget(p) < 1 then r == RetryResult(None, None, 0, 0)
    else
      && 1 <= n <= Budget(p)
      && Stops(p, attempt, sleep, n)
      && (forall k :: 1 <= k < n ==> !Stops(p, attempt, sleep, k))
      && r.resp == attempt(n).resp && r.lastStatus == attempt(n).status
      && r.err == (if n < Budget(p) && Retryable(p, attempt(n)) then ctxErr else attempt(n).err)
  }

  lemma OutcomeIsUnique(p: Policy, attempt: nat -> Attempt, sleep: nat -> bool,
                        ctxErr: Option<CallError>, r: RetryResult, s: RetryResult)
    requires IsOutcome(p, attempt, sleep, ctxErr, r) && IsOutcome(p, attempt, sleep, ctxErr, s)
    ensures r == s
  {
    if Budget(p) >= 1 {
      assert Stops(p, attempt, sleep, r.attempts) && Stops(p, attempt, sleep, s.attempts);
    }
  }

  /** `attempt(n)` and `sleep(n)` are what the n-th call and the pause after it give; `calls` is what was called. */
  method WithRetry(policy: Policy, attempt: nat -> Attempt, sleep: nat -> bool, ctxErr: Option<CallError>)
    returns (r: RetryResult, calls: seq<nat>)
    ensures IsOutcome(policy, attempt, sleep, ctxErr, r)
    ensures |calls| == r.attempts && forall i :: 0 <= i < |calls| ==> calls[i] == i + 1
  {
    r, calls := RetryResult(None, None, 0, 0), [];
    var budget := Budget(policy);
    var n: nat := 1;
    while n <= budget
      invariant n == |calls| + 1 && (n <= budget || n == 1)
      invariant n == 1 ==> r == RetryResult(None, None, 0, 0)
      invariant forall k :: 1 <= k < n ==> !Stops(policy, attempt, sleep, k)
      invariant forall i :: 0 <= i < |calls| ==> calls[i] == i + 1
      decreases budget - n
    {
      var a := attempt(n);
      calls := calls + [n];
      r := RetryResult(a.resp, a.err, n, a.status);
      if a.err.None? {
        if ShouldRetryResponse(policy, a.resp, a.status) && n < budget {
          if !sleep(n) {
            r := r.(err := ctxErr);
            return;
          }
          n := n + 1;
          continue;
        }
        return;
      }
      if n >= budget {
        return;
      }
      if !ShouldRetryError(policy, a.err.value, a.status) {
        return;
      }
      if !sleep(n) {
        r := r.(err := ctxErr);
        return;
      }
      n := n + 1;
    }
  }

  // ----- The same without the policy's own functions -----

  /** The statuses an attempt shows: its own if positive, and its response's or its error's. */
  function StatusesOf(a: Attempt): set<int> {
    (if a.status > 0 then {a.status} else {})
    + (if a.err.Some? then (if a.err.value.remoteStatus.Some? then {a.err.value.remoteStatus.value} else {})
       else if a.resp.Some? && a.resp.value.status.Some? then {a.resp.value.status.value}
       else {})
  }

  /**
    An attempt is worth another: a listed status shows, or, of an error, an accepted timeout, or,
    of a response, a listed code or key. Neither response nor error is not.
   */
  predicate WorthRetrying(p: Policy, a: Attempt) {
    || ((a.err.Some? || a.resp.Some?) && StatusesOf(a) * p.statuses != {})
    || (a.err.Some? && a.err.value.timeout && p.onTimeout)
    || (a.err.None? && a.resp.Some? && a.resp.value.code.Some? && a.resp.value.code.value in p.codes)
    || (a.err.None? && a.resp.Some? && a.resp.value.key.Some? && a.resp.value.key.value in p.keys)
  }

  /** The n-th attempt is worth another, and the sleep after it is not cut short. */
  predicate GoesOn(p: Policy, attempt: nat -> Attempt, sleep: nat -> bool, n: nat) {
    WorthRetrying(p, attempt(n)) && sleep(n)
  }

  lemma RetryableExactly(p: Policy, a: Attempt)
    ensures Retryable(p, a) <==> WorthRetrying(p, a)
  {
    assert forall x :: x in StatusesOf(a) * p.statuses <==> x in StatusesOf(a) && x in p.statuses;
    if Retryable(p, a) {
      assert a.status > 0 && a.status in p.statuses ==> a.status in StatusesOf(a) * p.statuses;
    } else if StatusesOf(a) * p.statuses != {} {
      var x :| x in StatusesOf(a) * p.statuses;
    }
  }

  /**
    Main result. With a retry count of n >= 0 the attempts are the shortest prefix that ends at an
    attempt not worth another, at a sleep cut short, or at attempt n + 1.
   */
  lemma AttemptsExactly(p: Policy, attempt: nat -> Attempt, sleep: nat -> bool,
                        ctxErr: Option<CallError>, r: RetryResult, n: nat)
    requires 0 <= p.maxRetries < MAX_INT64 && IsOutcome(p, attempt, sleep, ctxErr, r)
    ensures r.attempts == n <==>
            && 1 <= n <= p.maxRetries + 1
            && (n == p.maxRetries + 1 || !GoesOn(p, attempt, sleep, n))
            && forall k :: 1 <= k < n ==> GoesOn(p, attempt, sleep, k)
    ensures r.resp == attempt(r.attempts).resp && r.lastStatus == attempt(r.attempts).status
    ensures r.err == if r.attempts <= p.maxRetries && WorthRetrying(p, attempt(r.attempts)) then ctxErr
                     else attempt(r.attempts).err
  {
    var last := r.attempts;
    forall k: nat
      ensures Stops(p, attempt, sleep, k) <==> k == p.maxRetries + 1 || !GoesOn(p, attempt, sleep, k)
    {
      RetryableExactly(p, attempt(k));
    }
    RetryableExactly(p, attempt(last));
    assert Stops(p, attempt, sleep, last) && forall k :: 1 <= k < last ==> GoesOn(p, attempt, sleep, k);
  }

  /** A negative retry count makes no attempt, and reports neither a response nor an error. */
  lemma NegativeRetriesNeverCall(p: Policy, attempt: nat -> Attempt, sleep: nat -> bool,
                                 ctxErr: Option<CallError>, r: RetryResult)
    requires IsOutcome(p, attempt, sleep, ctxErr, r) && -MAX_INT64 - 1 <= p.maxRetries <= MAX_INT64
    ensures r.attempts == 0 <==> p.maxRetries < 0 || p.maxRetries == MAX_INT64
    ensures r.attempts == 0 ==> r.resp.None? && r.err.None?
  {
  }
}
