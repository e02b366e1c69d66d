/**
  Remote calls with per-attempt observability (handlers/callApi.go): each attempt works on its
  own copy of the call's parameters, so nothing it does reaches the next one.
 */
module CallApi {
  import opened Wrappers
  import opened Retry

  /** A response builder: none given, the caller's, the default one, or one wrapped by an attempt. */
  datatype Builder = Missing | Given(id: nat) | StatusPreserving | Wrapped(inner: Builder)

  /** What the parameters are when the transport gets them. */
  datatype Seen = Seen(query: string, stack: Option<seq<string>>, headers: Option<map<string, string>>,
                       builder: Builder)

  /** One exchange on the network, with the header map as the transport leaves it. */
  datatype Exchange =
    | NoAnswer(err: CallError, headersAfter: map<string, string>)
    | Answer(status: int, built: Option<Response>, buildErr: CallError, slow: bool, headersAfter: map<string, string>)

  datatype Verdict = Success | Failure | Timeout

  /** What metrics and the completion callback are told about an attempt. */
  datatype Record = Record(seen: Seen, status: int, verdict: Verdict)

  predicate IsSuccessStatus(s: int) {
    200 <= s < 300
  }

  /** Outside 2xx the caller's builder is never asked: the error always carries the status. */
  function ErrorOf(x: Exchange): Option<CallError> {
    match x
    case NoAnswer(err, _) => Some(err)
    case Answer(status, built, buildErr, _, _) =>
      if !IsSuccessStatus(status) then Some(CallError(false, Some(status)))
      else if built.None? then Some(buildErr)
      else None
  }

  function StatusOf(x: Exchange): int {
    var err := ErrorOf(x);
    if err.Some? && err.value.remoteStatus.Some? then err.value.remoteStatus.value
    else if x.Answer? && x.status > 0 then x.status
    else 0
  }

  /** The elapsed-time guard turns a slow success into a timeout error. */
  const TIMEOUT := CallError(true, None)

  function AttemptOf(x: Exchange): Attempt {
    var err := ErrorOf(x);
    if err.Some? then Attempt(None, StatusOf(x), err)
    else if x.slow then Attempt(None, StatusOf(x), Some(TIMEOUT))
    else Attempt(x.built, StatusOf(x), None)
  }

  function Attempts(exchange: nat -> Exchange): nat -> Attempt {
    (n: nat) => AttemptOf(exchange(n))
  }

  function VerdictOf(x: Exchange): Verdict {
    if ErrorOf(x).Some? then Failure else if x.slow then Timeout else Success
  }

  class Headers {
    var entries: map<string, string>

    constructor (entries: map<string, string>)
      ensures this.entries == entries
    {
      this.entries := entries;
    }
  }

  class Param {
    var query: string
    var stack: Option<seq<string>>
    var headers: Headers?
    var builder: Builder

    constructor (query: string, stack: Option<seq<string>>, headers: Headers?, builder: Builder)
      ensures this.query == query && this.stack == stack && this.headers == headers && this.builder == builder
    {
      this.query, this.stack, this.headers, this.builder := query, stack, headers, builder;
    }

    function View(): Seen
      reads this, headers
    {
      Seen(query, stack, if headers == null then None else Some(headers.entries), builder)
    }

    /** A shallow copy with its own header map. */
    method Clone() returns (c: Param)
      ensures fresh(c) && c.View() == View()
      ensures c.headers != null ==> fresh(c.headers)
    {
      var h: Headers? := null;
      if headers != null {
        h := new Headers(headers.entries);
      }
      c := new Param(query, stack, h, builder);
    }
  }

  class Observer {
    var metrics: seq<Record>
    var callbacks: seq<Record>

    constructor ()
      ensures metrics == [] && callbacks == []
    {
      metrics, callbacks := [], [];
    }
  }

  function Pinned(s: Seen): Seen {
    if s.stack.Some? && |s.stack.value| > 0 then s.(query := s.stack.value[0], stack := None) else s
  }

  function Effective(b: Builder): Builder {
    if b == Missing then StatusPreserving else b
  }

  /** The parameters an attempt hands to the transport: a stacked query popped, the builder wrapped. */
  function Sent(s: Seen): Seen {
    var b := s.(builder := Wrapped(Effective(s.builder)));
    if b.stack.Some? && |b.stack.value| > 0
    then b.(query := b.stack.value[0], stack := Some(b.stack.value[1..])) else b
  }

  /** One attempt, in place: the builder is wrapped and the transport may change the headers. */
  method ExecuteSingleAttempt(p: Param, x: Exchange, obs: Observer) returns (a: Attempt)
    modifies p, p.headers, obs
    ensures a == AttemptOf(x)
    ensures var r := Record(Sent(old(p.View())), StatusOf(x), VerdictOf(x));
            obs.metrics == old(obs.metrics) + [r] && obs.callbacks == old(obs.callbacks) + [r]
    ensures p.headers == old(p.headers) && p.builder == Wrapped(Effective(old(p.builder)))
  {
    var original := if p.builder == Missing then StatusPreserving else p.builder;
    p.builder := Wrapped(original);
    if p.stack.Some? && |p.stack.value| > 0 {
      p.query := p.stack.value[0];
      p.stack := Some(p.stack.value[1..]);
    }
    var seen := p.View();
    if p.headers != null {
      p.headers.entries := x.headersAfter;
    }
    var err, status := ErrorOf(x), StatusOf(x);
    if err.Some? {
      obs.metrics := obs.metrics + [Record(seen, status, Failure)];
      obs.callbacks := obs.callbacks + [Record(seen, status, Failure)];
      return Attempt(None, status, err);
    }
    if x.slow {
      obs.metrics := obs.metrics + [Record(seen, status, Timeout)];
      obs.callbacks := obs.callbacks + [Record(seen, status, Timeout)];
      return Attempt(None, status, Some(TIMEOUT));
    }
    obs.metrics := obs.metrics + [Record(seen, status, Success)];
    obs.callbacks := obs.callbacks + [Record(seen, status, Success)];
    return Attempt(x.built, status, None);
  }

  /** One attempt on a copy of the parameters: its own header map, and the builder filled in. */
  method ExecuteOnCopy(p: Param, x: Exchange, obs: Observer) returns (a: Attempt)
    modifies obs
    ensures a == AttemptOf(x)
    ensures var r := Record(Sent(p.View()), StatusOf(x), VerdictOf(x));
            obs.metrics == old(obs.metrics) + [r] && obs.callbacks == old(obs.callbacks) + [r]
  {
    var own := p.Clone();
    own.builder := if p.builder == Missing then StatusPreserving else p.builder;
    assert Sent(own.View()) == Sent(p.View());
    a := ExecuteSingleAttempt(own, x, obs);
  }

  /** The records of a call that made n attempts, all from the same pinned parameters. */
  function Records(s: Seen, exchange: nat -> Exchange, n: nat): seq<Record> {
    if n == 0 then []
    else Records(s, exchange, n - 1) + [Record(Sent(s), StatusOf(exchange(n)), VerdictOf(exchange(n)))]
  }

  method PinQuery(p: Param)
    modifies p`query, p`stack
    ensures p.View() == Pinned(old(p.View()))
  {
    if p.stack.Some? && |p.stack.value| > 0 {
      p.query := p.stack.value[0];
      p.stack := None;
    }
  }

  /** One turn of the retry loop: the attempt, and whether another follows. */
  method Turn(p: Param, policy: Policy, exchange: nat -> Exchange, sleep: nat -> bool,
              ctxErr: Option<CallError>, obs: Observer, n: nat)
    returns (r: RetryResult, again: bool)
    requires 1 <= n <= Budget(policy)
    modifies obs
    ensures var a := Attempts(exchange)(n);
            && again == !Stops(policy, Attempts(exchange), sleep, n)
            && r == RetryResult(a.resp, if n < Budget(policy) && Retryable(policy, a) && !again then ctxErr else a.err,
                                n, a.status)
    ensures var rec := Record(Sent(p.View()), StatusOf(exchange(n)), VerdictOf(exchange(n)));
            obs.metrics == old(obs.metrics) + [rec] && obs.callbacks == old(obs.callbacks) + [rec]
  {
    var a := ExecuteOnCopy(p, exchange(n), obs);
    r := RetryResult(a.resp, a.err, n, a.status);
    if n >= Budget(policy) || !Retryable(policy, a) {
      return r, false;
    }
    if !sleep(n) {
      return r.(err := ctxErr), false;
    }
    return r, true;
  }

  /**
    A call with a retry policy. Every attempt is recorded once in the metrics and once in the
    callback; all of them carry the query pinned at the start, the caller's headers as they
    were, and the builder wrapped exactly once; and the caller's own parameters keep their
    headers and builder.
   */
  method CallWithRetries(p: Param, policy: Policy, exchange: nat -> Exchange, sleep: nat -> bool,
                         ctxErr: Option<CallError>, obs: Observer)
    returns (r: RetryResult)
    modifies p`query, p`stack, obs
    ensures IsOutcome(policy, Attempts(exchange), sleep, ctxErr, r)
    ensures var records := Records(Pinned(old(p.View())), exchange, r.attempts);
            obs.metrics == old(obs.metrics) + records && obs.callbacks == old(obs.callbacks) + records
    ensures p.View() == Pinned(old(p.View()))
  {
    PinQuery(p);
    ghost var pinned := p.View();
    r := RetryResult(None, None, 0, 0);
    var n: nat := 1;
    while n <= Budget(policy)
      invariant n >= 1 && (n <= Budget(policy) || n == 1)
      invariant n == 1 ==> r == RetryResult(None, None, 0, 0)
      invariant forall k :: 1 <= k < n ==> !Stops(policy, Attempts(exchange), sleep, k)
      invariant p.View() == pinned
      invariant obs.metrics == old(obs.metrics) + Records(pinned, exchange, n - 1)
      invariant obs.callbacks == old(obs.callbacks) + Records(pinned, exchange, n - 1)
      decreases Budget(policy) - n
    {
      var again: bool;
      r, again := Turn(p, policy, exchange, sleep, ctxErr, obs, n);
      if !again {
        return;
      }
      n := n + 1;
    }
  }

  lemma {:induction false} RecordsAllAlike(s: Seen, exchange: nat -> Exchange, n: nat)
    ensures |Records(s, exchange, n)| == n
    ensures forall i :: 0 <= i < n ==>
              var rec := Records(s, exchange, n)[i];
              && rec.seen.query == Sent(s).query && rec.seen.headers == s.headers
              && rec.seen.builder == Wrapped(Effective(s.builder))
              && rec.status == StatusOf(exchange(i + 1)) && rec.verdict == VerdictOf(exchange(i + 1))
  {
    if n > 0 {
      RecordsAllAlike(s, exchange, n - 1);
    }
  }

  /** The query pinned before the first attempt: the head of the caller's stack, if it has one. */
  function QueryOf(s: Seen): string {
    match s.stack
    case Some(stack) => if stack == [] then s.query else stack[0]
    case None => s.query
  }

  /** Main result: what every attempt of a call with retries is seen with, by the caller's parameters. */
  lemma AttemptsSeeExactly(s: Seen, exchange: nat -> Exchange, n: nat, i: nat)
    requires i < n
    ensures |Records(Pinned(s), exchange, n)| == n
    ensures var seen := Records(Pinned(s), exchange, n)[i].seen;
            && seen.query == QueryOf(s) && seen.headers == s.headers
            && (seen.stack.Some? ==> seen.stack == Some([]))
            && seen.builder == Wrapped(if s.builder == Missing then StatusPreserving else s.builder)
  {
    RecordsAllAlike(Pinned(s), exchange, n);
    RecordIsSent(Pinned(s), exchange, n, i);
  }

  lemma {:induction false} RecordIsSent(s: Seen, exchange: nat -> Exchange, n: nat, i: nat)
    requires i < n
    ensures |Records(s, exchange, n)| == n && Records(s, exchange, n)[i].seen == Sent(s)
  {
    RecordsAllAlike(s, exchange, n - 1);
    if i < n - 1 {
      RecordIsSent(s, exchange, n - 1, i);
    }
  }

  /**
    What an exchange comes to. No answer: its own error. An answer outside 200 to 299: an error
    with the answer's status. Otherwise the builder's error, a timeout for a slow one, or success
    with the built response; and metrics and callback are told the same.
   */
  lemma ExchangeExactly(x: Exchange)
    ensures x.NoAnswer? ==>
              VerdictOf(x) == Failure && AttemptOf(x).resp.None? && AttemptOf(x).err == Some(x.err)
              && StatusOf(x) == (if x.err.remoteStatus.Some? then x.err.remoteStatus.value else 0)
    ensures x.Answer? && (x.status < 200 || x.status > 299) ==>
              VerdictOf(x) == Failure && AttemptOf(x) == Attempt(None, x.status, Some(CallError(false, Some(x.status))))
    ensures x.Answer? && 200 <= x.status <= 299 ==>
              if x.built.None?
              then VerdictOf(x) == Failure && AttemptOf(x).resp.None? && AttemptOf(x).err == Some(x.buildErr)
              else if x.slow
              then VerdictOf(x) == Timeout && AttemptOf(x) == Attempt(None, x.status, Some(CallError(true, None)))
              else VerdictOf(x) == Success && AttemptOf(x) == Attempt(x.built, x.status, None)
    ensures AttemptOf(x).status == StatusOf(x)
  {
  }

  /** Without a policy the one attempt works on the caller's own parameters, and a second such call wraps again. */
  method CallOnce(p: Param, x: Exchange, obs: Observer) returns (a: Attempt)
    modifies p, p.headers, obs
    ensures a == AttemptOf(x)
    ensures var rec := Record(Sent(Pinned(old(p.View()))), StatusOf(x), VerdictOf(x));
            obs.metrics == old(obs.metrics) + [rec] && obs.callbacks == old(obs.callbacks) + [rec]
    ensures p.builder == Wrapped(Effective(old(p.builder)))
  {
    PinQuery(p);
    a := ExecuteSingleAttempt(p, x, obs);
  }
}
