/**
  What a request is answered with, event by event: by the transport, by the preset and v1 error
  handlers, and by an endpoint whose phase failed.
 */
module ErrorAnswers {
  import opened Wrappers
  import opened Protocol
  import opened ProtocolProofs
  import opened HookRuns

  /** The log is the old one with exactly these events after it. */
  predicate Adds(log: Log, earlier: Log, events: seq<Event>)
    decreases |events|
  {
    if events == [] then log == earlier
    else log.Then? && log.event == events[|events| - 1] && Adds(log.before, earlier, events[..|events| - 1])
  }

  function HookEvents(hooks: seq<Hook>): (events: seq<Event>)
    ensures |events| == |hooks|
  {
    seq(|hooks|, i requires 0 <= i < |hooks| => HookRan(hooks[i]))
  }

  /** The hooks that an attempt to answer will run: all of them, or none if they have run. */
  function HooksDue(c: Ctx): seq<Event> {
    if c.hooksRan then [] else HookEvents(c.hooks)
  }

  /** From c to d the hooks that were due ran, and then came this one event, which settles the status. */
  predicate Answered(c: Ctx, d: Ctx, status: int, event: Event) {
    d.committed && d.status == status && d.hooksRan && Adds(d.log, c.log, HooksDue(c) + [event])
  }

  /** The hooks that were due ran, then this came, and nothing is settled. */
  predicate Unanswered(c: Ctx, d: Ctx, events: seq<Event>) {
    !d.committed && d.hooksRan && Adds(d.log, c.log, HooksDue(c) + events)
  }

  // ----- Hooks -----

  lemma {:induction false} AddsMore(log: Log, mid: Log, earlier: Log, a: seq<Event>, b: seq<Event>)
    requires Adds(mid, earlier, a) && Adds(log, mid, b)
    ensures Adds(log, earlier, a + b)
    decreases |b|
  {
    if b == [] {
      assert a + b == a;
    } else {
      AddsMore(log.before, mid, earlier, a, b[..|b| - 1]);
      assert (a + b)[..|a + b| - 1] == a + b[..|b| - 1];
    }
  }

  lemma AddsOne(log: Log, e: Event)
    ensures Adds(Then(log, e), log, [e])
  {
    assert [e][..0] == [];
  }

  lemma {:induction false} HooksAreAdded(log: Log, hooks: seq<Hook>)
    ensures Adds(LogHooks(log, hooks), log, HookEvents(hooks))
    decreases |hooks|
  {
    if hooks != [] {
      var next := Then(log, HookRan(hooks[0]));
      AddsOne(log, HookRan(hooks[0]));
      HooksAreAdded(next, hooks[1..]);
      AddsMore(LogHooks(next, hooks[1..]), next, log, [HookRan(hooks[0])], HookEvents(hooks[1..]));
      assert HookEvents(hooks) == [HookRan(hooks[0])] + HookEvents(hooks[1..]);
    }
  }

  /** The reported hook error is the first one, though all hooks run. */
  lemma {:induction false} FirstErrorExactly(hooks: seq<Hook>, err: Err)
    ensures FirstError(hooks) == Some(err) <==>
            exists i :: 0 <= i < |hooks| && hooks[i].err == Some(err)
                        && forall j :: 0 <= j < i ==> hooks[j].err.None?
  {
    if hooks != [] {
      var rest := hooks[1..];
      FirstErrorExactly(rest, err);
      assert forall i :: 0 <= i < |rest| ==> rest[i] == hooks[i + 1];
      if hooks[0].err.None? {
        if i :| 0 <= i < |hooks| && hooks[i].err == Some(err) && forall j :: 0 <= j < i ==> hooks[j].err.None? {
          assert rest[i - 1].err == Some(err);
        }
        if i :| 0 <= i < |rest| && rest[i].err == Some(err) && forall j :: 0 <= j < i ==> rest[j].err.None? {
          assert hooks[i + 1].err == Some(err);
          forall j | 0 <= j < i + 1
            ensures hooks[j].err.None?
          {
            assert j > 0 ==> rest[j - 1] == hooks[j];
          }
        }
      } else {
        assert hooks[0].err == Some(err) ==> FirstError(hooks) == Some(err);
      }
    }
  }

  lemma NoFirstError(hooks: seq<Hook>)
    ensures FirstError(hooks).None? <==> forall i :: 0 <= i < |hooks| ==> hooks[i].err.None?
  {
    if hooks != [] {
      NoFirstError(hooks[1..]);
    }
  }

  lemma RunHooksAdds(c: Ctx)
    ensures var d := RunHooks(c).0;
            d == c.(hooksRan := true, log := d.log) && Adds(d.log, c.log, HooksDue(c))
  {
    if !c.hooksRan {
      HooksAreAdded(c.log, c.hooks);
    }
  }

  lemma OneMoreEvent(c: Ctx, log: Log, e: Event)
    requires Adds(log, c.log, HooksDue(c))
    ensures Adds(Then(log, e), c.log, HooksDue(c) + [e])
  {
    AddsOne(log, e);
    AddsMore(Then(log, e), log, c.log, HooksDue(c), [e]);
  }

  // ----- One attempt to answer -----

  /** A hook that has not run yet fails. */
  predicate HookRefuses(c: Ctx) {
    !c.hooksRan && exists i :: 0 <= i < |c.hooks| && c.hooks[i].err.Some?
  }

  /** An attempt at an answer, in all its endings. */
  predicate Sent(c: Ctx, d: Ctx, status: int, body: Body) {
    if HookRefuses(c) then Unanswered(c, d, [])
    else if c.wire(c.attempts) then Answered(c, d, status, Wrote(status, body))
    else Unanswered(c, d, [Broke(status, body)])
  }

  /** The error it gives: the refusing hook's, or the transport's. */
  predicate SentWith(c: Ctx, err: Option<Err>) {
    if HookRefuses(c) then err.Some? && err == FirstError(c.hooks)
    else err == if c.wire(c.attempts) then None else Some(WriteFailed)
  }

  /** SendResponse, from an uncommitted request. */
  lemma SendsExactly(c: Ctx, status: int, body: Body)
    requires !c.committed
    ensures var (d, err) := SendResponse(c, status, body); Sent(c, d, status, body) && SentWith(c, err)
  {
    RunHooksAdds(c);
    NoFirstError(c.hooks);
    var log := RunHooks(c).0.log;
    OneMoreEvent(c, log, Wrote(status, body));
    OneMoreEvent(c, log, Broke(status, body));
    assert HooksDue(c) + [] == HooksDue(c);
  }

  /** Handler.commit does the same. */
  lemma CommitsExactly(c: Ctx, status: int, body: Body)
    requires !c.committed
    ensures var (d, err) := Commit(c, status, body); Sent(c, d, status, body) && SentWith(c, err)
  {
    SendsExactly(c, status, body);
    CommitIsSend(c, status, body);
  }

  lemma CommitIsSend(c: Ctx, status: int, body: Body)
    requires !c.committed
    ensures Commit(c, status, body) == SendResponse(c, status, body)
  {
  }

  /** An error response goes out even when a hook fails. */
  predicate Reported(c: Ctx, d: Ctx, status: int, body: Body) {
    if c.wire(c.attempts) then Answered(c, d, status, Wrote(status, body))
    else Unanswered(c, d, [Broke(status, body)])
  }

  lemma ReportsExactly(c: Ctx, status: int, body: Body)
    requires !c.committed
    ensures var (d, err) := CommitError(c, status, body);
            Reported(c, d, status, body) && err == if c.wire(c.attempts) then None else Some(WriteFailed)
  {
    RunHooksAdds(c);
    var log := RunHooks(c).0.log;
    OneMoreEvent(c, log, Wrote(status, body));
    OneMoreEvent(c, log, Broke(status, body));
  }

  /** Application code's own answers carry its status and body. */
  lemma ActsExactly(c: Ctx, status: int, id: nat)
    requires !c.committed
    ensures Sent(c, Act(c, Send(status, id)), status, Raw(id))
    ensures Sent(c, Act(c, CommitOk(status, id)), status, Raw(id))
    ensures Reported(c, Act(c, CommitFailure(status)), status, ErrorBody(status))
  {
    SendsExactly(c, status, Raw(id));
    CommitsExactly(c, status, Raw(id));
    ReportsExactly(c, status, ErrorBody(status));
  }

  // ----- Errors through the registry -----

  /** The handler for the status an error resolves to: the registered one, or the fallback. */
  ghost predicate Chosen(r: Registry, status: int, h: ErrorHandler) {
    if status in r.handlers then r.handlers[status] == h else r.fallback == Some(h)
  }

  /** What the v1 fallback leaves: its one write, whole or broken, the resolved status, and no hook run. */
  predicate LegacyAnswered(c: Ctx, d: Ctx, status: int) {
    && d.committed && d.status == status && d.hooksRan == c.hooksRan
    && Adds(d.log, c.log, [if c.wire(c.attempts) then LegacyWrote else LegacyBroke])
  }

  /**
    Main result. An uncommitted request whose error resolves to a preset handler is answered with
    that preset's own status and body, even when a hook fails, over a wire that takes the write.
   */
  lemma PresetAnswersExactly(r: Registry, c: Ctx, err: Err, s: int)
    requires !c.committed && Chosen(r, r.resolve(err), Preset(s, None)) && c.wire(c.attempts)
    ensures var (d, e) := ReportError(r, c, err);
            e.None? && Answered(c, d, s, Wrote(s, ErrorBody(s)))
  {
    ReportsExactly(c, s, ErrorBody(s));
  }

  /** Over a wire that breaks it, with no fallback to follow, nothing is settled. */
  lemma PresetBreaksExactly(r: Registry, c: Ctx, err: Err, s: int)
    requires !c.committed && r.resolve(err) in r.handlers && r.handlers[r.resolve(err)] == Preset(s, None)
    requires !c.wire(c.attempts) && r.fallback.None?
    ensures var (d, e) := ReportError(r, c, err);
            e == Some(WriteFailed) && Unanswered(c, d, [Broke(s, ErrorBody(s))])
  {
    ReportsExactly(c, s, ErrorBody(s));
  }

  /** The v1 fallback, chosen or taking over from a preset that does not encode. */
  lemma LegacyAnswersExactly(r: Registry, c: Ctx, err: Err)
    requires var status := r.resolve(err);
             || Chosen(r, status, Legacy)
             || (status in r.handlers && r.handlers[status].Preset? && r.handlers[status].encodeErr.Some?
                 && r.fallback == Some(Legacy))
    requires !c.committed
    ensures var (d, e) := ReportError(r, c, err);
            e.None? && LegacyAnswered(c, d, r.resolve(err))
  {
    AddsOne(c.log, if c.wire(c.attempts) then LegacyWrote else LegacyBroke);
  }

  /** A preset that takes over from one that does not encode answers with its own status. */
  lemma FallbackPresetAnswers(r: Registry, c: Ctx, err: Err, s: int)
    requires r.resolve(err) in r.handlers && r.fallback == Some(Preset(s, None))
    requires r.handlers[r.resolve(err)].Preset? && r.handlers[r.resolve(err)].encodeErr.Some?
    requires !c.committed && c.wire(c.attempts)
    ensures var (d, e) := ReportError(r, c, err);
            e.None? && Answered(c, d, s, Wrote(s, ErrorBody(s)))
  {
    ReportsExactly(c, s, ErrorBody(s));
  }

  /** Without any handler nothing happens to the request, and a committed one only gets its error back. */
  lemma UnhandledErrors(r: Registry, c: Ctx, err: Err)
    ensures c.committed ==> ReportError(r, c, err) == (c, Some(err))
    ensures !c.committed && r.resolve(err) !in r.handlers && r.fallback.None? ==>
              ReportError(r, c, err) == (c, Some(NoHandler))
  {
  }

  /** The router without a handler of its own answers 500 with its fixed body. */
  lemma BareDispatchAnswers(c: Ctx, err: Err)
    requires !c.committed && !HookRefuses(c) && c.wire(c.attempts)
    ensures Answered(c, Dispatch(None, c, err), 500, Wrote(500, FallbackBody))
  {
    SendsExactly(c, 500, FallbackBody);
  }

  /** A router with a handler of its own answers through it first; its 500 is for what that leaves open. */
  lemma RouterDispatchAnswers(r: Registry, c: Ctx, err: Err, s: int)
    requires !c.committed && c.wire(c.attempts)
    ensures Chosen(r, r.resolve(err), Preset(s, None)) ==>
              Answered(c, Dispatch(Some(r), c, err), s, Wrote(s, ErrorBody(s)))
    ensures Chosen(r, r.resolve(err), Legacy) ==> LegacyAnswered(c, Dispatch(Some(r), c, err), r.resolve(err))
    ensures r.resolve(err) !in r.handlers && r.fallback.None? && !HookRefuses(c) ==>
              Answered(c, Dispatch(Some(r), c, err), 500, Wrote(500, FallbackBody))
  {
    if Chosen(r, r.resolve(err), Preset(s, None)) {
      PresetAnswersExactly(r, c, err, s);
    }
    if Chosen(r, r.resolve(err), Legacy) {
      LegacyAnswersExactly(r, c, err);
    }
    if r.resolve(err) !in r.handlers && r.fallback.None? && !HookRefuses(c) {
      UnhandledErrors(r, c, err);
      SendsExactly(c, 500, FallbackBody);
    }
  }

  // ----- Whole runs -----

  /** What a run settles in its stages is settled for good. */
  lemma SettledStays(router: Option<Registry>, e: Endpoint, r: Registry, c: Ctx)
    requires Fresh(c)
    requires RunStages(r, c, Stages(e), e.encoding).0.committed
    ensures var d := RunStages(r, c, Stages(e), e.encoding).0;
            var f := Adapt(router, e, r, c);
            f.committed && f.status == d.status
  {
    RunStagesKeeps(r, c, Stages(e), e.encoding);
    var (c1, end) := RunStages(r, c, Stages(e), e.encoding);
    FinalizeRunKeeps(e, r, c1, Inserted(e), end);
  }

  /**
    Main result. An endpoint whose phase fails, or whose result does not encode, and that nothing
    has answered yet, ends with the status of the preset its error resolves to.
   */
  lemma FailedPhaseGetsItsStatus(router: Option<Registry>, e: Endpoint, r: Registry, c: Ctx, err: Err, s: int)
    requires Fresh(c) && EndingOf(Stages(e), e.encoding) == Problem(err)
    requires var x := AfterStages(c, Stages(e)); !x.committed && x.wire(x.attempts)
    requires Chosen(r, r.resolve(err), Preset(s, None))
    ensures var x := AfterStages(c, Stages(e));
            && Answered(x, RunStages(r, c, Stages(e), e.encoding).0, s, Wrote(s, ErrorBody(s)))
            && Adapt(router, e, r, c).committed && Adapt(router, e, r, c).status == s
  {
    AnswerFollowsStages(r, c, Stages(e), e.encoding);
    PresetAnswersExactly(r, AfterStages(c, Stages(e)), err, s);
    SettledStays(router, e, r, c);
  }

  /** The same with the v1 fallback: its write, the resolved status, no hook. */
  lemma FailedPhaseFallsBack(router: Option<Registry>, e: Endpoint, r: Registry, c: Ctx, err: Err)
    requires Fresh(c) && EndingOf(Stages(e), e.encoding) == Problem(err)
    requires !AfterStages(c, Stages(e)).committed && Chosen(r, r.resolve(err), Legacy)
    ensures var x := AfterStages(c, Stages(e));
            && LegacyAnswered(x, RunStages(r, c, Stages(e), e.encoding).0, r.resolve(err))
            && Adapt(router, e, r, c).committed && Adapt(router, e, r, c).status == r.resolve(err)
  {
    AnswerFollowsStages(r, c, Stages(e), e.encoding);
    LegacyAnswersExactly(r, AfterStages(c, Stages(e)), err);
    SettledStays(router, e, r, c);
  }

  /** An endpoint whose phases complete, unanswered and unrefused, sends its success body with 200. */
  lemma CompletedRunSends200(router: Option<Registry>, e: Endpoint, r: Registry, c: Ctx)
    requires Fresh(c) && EndingOf(Stages(e), e.encoding) == Completed
    requires var x := AfterStages(c, Stages(e)); !x.committed && !HookRefuses(x) && x.wire(x.attempts)
    ensures var x := AfterStages(c, Stages(e));
            && Answered(x, RunStages(r, c, Stages(e), e.encoding).0, 200, Wrote(200, SuccessBody))
            && Adapt(router, e, r, c).committed && Adapt(router, e, r, c).status == 200
  {
    AnswerFollowsStages(r, c, Stages(e), e.encoding);
    CommitsExactly(AfterStages(c, Stages(e)), 200, SuccessBody);
    SettledStays(router, e, r, c);
  }

  /**
    A problem that the endpoint's registry has no handler for reaches the router, after the
    finalizer and the update, as the error that says so: its own kind is lost.
   */
  lemma UnhandledProblemIsDispatched(router: Option<Registry>, e: Endpoint, r: Registry, c: Ctx, err: Err)
    requires Fresh(c) && EndingOf(Stages(e), e.encoding) == Problem(err)
    requires r.resolve(err) !in r.handlers && r.fallback.None?
    requires !AfterStages(c, Stages(e)).committed && !AfterTail(e, AfterStages(c, Stages(e))).committed
    ensures Adapt(router, e, r, c) == Dispatch(router, AfterTail(e, AfterStages(c, Stages(e))), NoHandler)
  {
    AnswerFollowsStages(r, c, Stages(e), e.encoding);
    UnhandledErrors(r, AfterStages(c, Stages(e)), err);
  }
}
