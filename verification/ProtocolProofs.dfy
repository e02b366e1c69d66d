/** What every run of the response protocol keeps. */
module ProtocolProofs {
  import opened Wrappers
  import opened Protocol

  // ----- Reading the log -----

  /**
    A log at a glance: the whole responses that reached the client and the status of the last
    one sent through SendResponse, whether one was the success body, the phase events, the
    hooks that ran, whether SendResponse has tried to write, and whether a hook ran after that.
   */
  datatype Summary = Summary(writes: nat, sent: Option<int>, success: bool, phases: seq<Event>,
                             hooks: seq<Hook>, tried: bool, lateHook: bool)

  function Note(s: Summary, e: Event): Summary {
    match e
    case HookRan(h) => s.(hooks := s.hooks + [h], lateHook := s.lateHook || s.tried)
    case Wrote(status, body) =>
      s.(writes := s.writes + 1, sent := Some(status), success := s.success || body == SuccessBody, tried := true)
    case Broke(_, _) => s.(tried := true)
    case LegacyWrote => s.(writes := s.writes + 1)
    case LegacyBroke => s
    case Started(_) => s.(phases := s.phases + [e])
    case Passed(_) => s.(phases := s.phases + [e])
  }

  function Read(log: Log): Summary {
    match log
    case Empty => Summary(0, None, false, [], [], false, false)
    case Then(before, e) => Note(Read(before), e)
  }

  lemma {:induction false} ReadHooks(log: Log, hooks: seq<Hook>)
    ensures var s := Read(log);
            Read(LogHooks(log, hooks))
            == s.(hooks := s.hooks + hooks, lateHook := s.lateHook || (s.tried && hooks != []))
    decreases |hooks|
  {
    if hooks == [] {
      assert Read(log).hooks + hooks == Read(log).hooks;
    } else {
      ReadHooks(Then(log, HookRan(hooks[0])), hooks[1..]);
      assert (Read(log).hooks + [hooks[0]]) + hooks[1..] == Read(log).hooks + hooks;
    }
  }

  // ----- The invariant -----

  /**
    At most one whole response, and once there is one the context is committed, with its status;
    hooks run at most once, in registration order, before anything goes through SendResponse.
   */
  predicate Inv(c: Ctx) {
    var s := Read(c.log);
    && s.writes <= (if c.committed then 1 else 0)
    && (s.sent.Some? ==> c.committed && c.status == s.sent.value)
    && (s.tried ==> c.hooksRan)
    && (!c.hooksRan ==> s.hooks == [])
    && s.hooks <= c.hooks
    && !s.lateHook
  }

  /** The other half, for a transport that never fails: committed only with a response. */
  ghost predicate Settled(c: Ctx) {
    (forall n :: c.wire(n)) && c.committed ==> Read(c.log).writes == 1
  }

  /** The hooks and the commit state only move forward; hooks registered in time all run, later ones never. */
  ghost predicate Extends(c: Ctx, d: Ctx) {
    && d.wire == c.wire
    && c.hooks <= d.hooks
    && (c.hooksRan ==> d.hooksRan && Read(d.log).hooks == Read(c.log).hooks)
    && (!c.hooksRan && d.hooksRan ==> c.hooks <= Read(d.log).hooks)
    && (c.committed ==> d.committed && d.status == c.status)
  }

  /** A step that keeps the invariant. */
  ghost predicate Keeps(c: Ctx, d: Ctx) {
    Inv(d) && Extends(c, d) && (Settled(c) ==> Settled(d))
  }

  /** A step that is no phase and no success response. */
  predicate Quiet(c: Ctx, d: Ctx) {
    Read(d.log).phases == Read(c.log).phases && Read(d.log).success == Read(c.log).success
  }

  // ----- Each primitive keeps it -----

  lemma RunHooksKeeps(c: Ctx)
    requires Inv(c)
    ensures var (d, err) := RunHooks(c);
            && Keeps(c, d) && Quiet(c, d) && d.hooksRan
            && d.committed == c.committed && d.status == c.status && d.hooks == c.hooks
            && err == (if c.hooksRan then None else FirstError(c.hooks))
  {
    if !c.hooksRan {
      ReadHooks(c.log, c.hooks);
    }
  }

  lemma SendResponseKeeps(c: Ctx, status: int, body: Body)
    requires Inv(c)
    ensures var (d, err) := SendResponse(c, status, body);
            && Keeps(c, d) && (err.None? ==> d.committed)
            && (body != SuccessBody ==> Quiet(c, d))
            && (!c.committed ==> d.hooksRan)
            && Read(d.log).phases == Read(c.log).phases
  {
    RunHooksKeeps(c);
  }

  /**
    Commit from an uncommitted request, exactly: the body goes out if and only if the hooks
    have run before or none of them fails now, and the write itself succeeds.
   */
  lemma CommitExactly(c: Ctx, status: int, body: Body)
    requires Inv(c) && !c.committed
    ensures var (d, err) := Commit(c, status, body);
            && (err.None? <==> d.committed)
            && (d.committed <==> (c.hooksRan || FirstError(c.hooks).None?) && c.wire(c.attempts))
            && (d.committed ==> d.log == Then(RunHooks(c).0.log, Wrote(status, body)) && d.status == status)
            && (!c.hooksRan && FirstError(c.hooks).Some? ==> err == FirstError(c.hooks) && d == RunHooks(c).0)
  {
    RunHooksKeeps(c);
  }

  lemma CommitKeeps(c: Ctx, status: int, body: Body)
    requires Inv(c)
    ensures var (d, err) := Commit(c, status, body);
            && Keeps(c, d) && (err.None? ==> d.committed) && (err.Some? ==> d.hooksRan)
            && (body != SuccessBody ==> Quiet(c, d))
            && Read(d.log).phases == Read(c.log).phases
  {
    if !c.committed {
      RunHooksKeeps(c);
      SendResponseKeeps(RunHooks(c).0, status, body);
    }
  }

  lemma CommitErrorKeeps(c: Ctx, status: int, body: Body)
    requires Inv(c)
    ensures var (d, err) := CommitError(c, status, body);
            && Keeps(c, d) && (err.None? ==> d.committed) && d.hooksRan
            && (body != SuccessBody ==> Quiet(c, d))
  {
    RunHooksKeeps(c);
    SendResponseKeeps(RunHooks(c).0, status, body);
  }

  lemma ActKeeps(c: Ctx, a: Action)
    requires Inv(c)
    ensures Keeps(c, Act(c, a)) && Quiet(c, Act(c, a))
  {
    match a
    case AddHook(h) =>
    case Send(s, id) => SendResponseKeeps(c, s, Raw(id));
    case CommitOk(s, id) => CommitKeeps(c, s, Raw(id));
    case CommitFailure(s) => CommitErrorKeeps(c, s, ErrorBody(s));
  }

  lemma {:induction false} PerformKeeps(c: Ctx, acts: seq<Action>)
    requires Inv(c)
    ensures Keeps(c, Perform(c, acts)) && Quiet(c, Perform(c, acts))
    decreases |acts|
  {
    if acts != [] {
      ActKeeps(c, acts[0]);
      PerformKeeps(Act(c, acts[0]), acts[1..]);
    }
  }

  lemma RunHandlerKeeps(h: ErrorHandler, c: Ctx, status: int)
    requires Inv(c) && !c.committed
    ensures var (d, _) := RunHandler(h, c, status);
            Keeps(c, d) && Quiet(c, d) && (h == Legacy ==> d.committed)
  {
    match h
    case Preset(s, encodeErr) => if encodeErr.None? { CommitErrorKeeps(c, s, ErrorBody(s)); }
    case Legacy =>
    case Custom(react) => PerformKeeps(c, react(c).acts);
  }

  /** With the v1 fallback installed, an error reported in time always leaves a committed request. */
  lemma ReportErrorKeeps(r: Registry, c: Ctx, err: Err)
    requires Inv(c)
    ensures var (d, e) := ReportError(r, c, err);
            && Keeps(c, d) && Quiet(c, d)
            && (r.fallback == Some(Legacy) ==> d.committed)
  {
    if !c.committed {
      var status := r.resolve(err);
      if status in r.handlers {
        RunHandlerKeeps(r.handlers[status], c, status);
        var (c1, _) := RunHandler(r.handlers[status], c, status);
        if !c1.committed && r.fallback.Some? {
          RunHandlerKeeps(r.fallback.value, c1, status);
        }
      } else if r.fallback.Some? {
        RunHandlerKeeps(r.fallback.value, c, status);
      }
    }
  }

  lemma RespondOkKeeps(r: Registry, c: Ctx, encodeErr: Option<Err>)
    requires Inv(c)
    ensures var (d, err) := RespondOk(r, c, encodeErr);
            && Keeps(c, d) && Read(d.log).phases == Read(c.log).phases
            && (r.fallback == Some(Legacy) ==> d.committed || (err.Some? && d.hooksRan))
  {
    if encodeErr.Some? {
      ReportErrorKeeps(r, c, encodeErr.value);
    } else {
      CommitKeeps(c, 200, SuccessBody);
    }
  }

  /** The last fallback may mark a request it could not write, but not when its hooks have run. */
  lemma DispatchKeeps(r: Option<Registry>, c: Ctx, err: Err)
    requires Inv(c)
    ensures var d := Dispatch(r, c, err);
            && Inv(d) && Extends(c, d) && Quiet(c, d) && d.committed
            && (c.hooksRan && Settled(c) ==> Settled(d))
  {
    if r.Some? {
      ReportErrorKeeps(r.value, c, err);
    }
    var c1 := if r.Some? then ReportError(r.value, c, err).0 else c;
    SendResponseKeeps(c1, 500, FallbackBody);
  }

  // ----- The lifecycle -----

  function ScriptTrace(seen: seq<Event>, p: Phase, s: Script): seq<Event> {
    var started := seen + [Started(p)];
    if s.out.Done? then started + [Passed(p)] else started
  }

  lemma PhaseNoted(c: Ctx, e: Event)
    requires Inv(c) && (e.Started? || e.Passed?)
    ensures var d := c.Logged(e);
            && Keeps(c, d) && Read(d.log).success == Read(c.log).success
            && Read(d.log).phases == Read(c.log).phases + [e]
  {
  }

  lemma RunScriptKeeps(c: Ctx, p: Phase, s: Script)
    requires Inv(c)
    ensures var d := RunScript(c, p, s);
            && Keeps(c, d) && Read(d.log).success == Read(c.log).success
            && Read(d.log).phases == ScriptTrace(Read(c.log).phases, p, s)
  {
    PhaseNoted(c, Started(p));
    var c1 := c.Logged(Started(p));
    PerformKeeps(c1, s.acts);
    PhaseNoted(Perform(c1, s.acts), Passed(p));
  }

  lemma {:induction false} RunStagesKeeps(r: Registry, c: Ctx, stages: seq<Stage>, encoding: Encoding)
    requires Inv(c)
    ensures var (d, end) := RunStages(r, c, stages, encoding);
            && Keeps(c, d)
            && Read(d.log).phases == StageTrace(Read(c.log).phases, stages)
            && (r.fallback == Some(Legacy) ==>
                  end.Caught? || d.committed || (end.err.Some? && d.hooksRan))
    decreases |stages|
  {
    if stages == [] {
      match encoding
      case Encoded => RespondOkKeeps(r, c, None);
      case EncodeFails(e) => RespondOkKeeps(r, c, Some(e));
      case EncodePanics(e) =>
    } else {
      var (p, s) := stages[0];
      RunScriptKeeps(c, p, s);
      var c1 := RunScript(c, p, s);
      if s.out.Done? {
        RunStagesKeeps(r, c1, stages[1..], encoding);
      } else if s.out.Failed? {
        ReportErrorKeeps(r, c1, s.out.err);
      }
    }
  }

  /** The phase events of the part that runs whatever happened before. */
  function FinalizerTrace(seen: seq<Event>, e: Endpoint, caught: bool): seq<Event> {
    var s1 := if caught && e.recovery then seen + [Started(Recover)] else seen;
    if e.finalizer.Some? then ScriptTrace(s1, Finalize, e.finalizer.value) else s1
  }

  function FinalTrace(seen: seq<Event>, e: Endpoint, inserted: bool, caught: bool): seq<Event> {
    var s := FinalizerTrace(seen, e, caught);
    if e.persistence.Some? && inserted then s + [Started(Update)] else s
  }

  lemma RunFinalizerKeeps(e: Endpoint, c: Ctx, caught: bool)
    requires Inv(c)
    ensures var d := RunFinalizer(e, c, caught);
            && Keeps(c, d) && Read(d.log).success == Read(c.log).success
            && Read(d.log).phases == FinalizerTrace(Read(c.log).phases, e, caught)
  {
    var c1 := if caught && e.recovery then c.Logged(Started(Recover)) else c;
    if e.finalizer.Some? {
      RunScriptKeeps(c1, Finalize, e.finalizer.value);
    }
  }

  lemma RunUpdateKeeps(e: Endpoint, c: Ctx, inserted: bool)
    requires Inv(c)
    ensures var d := RunUpdate(e, c, inserted);
            && Keeps(c, d) && Read(d.log).success == Read(c.log).success
            && Read(d.log).phases == Read(c.log).phases
               + (if e.persistence.Some? && inserted then [Started(Update)] else [])
  {
    if e.persistence.Some? && inserted {
      PerformKeeps(c.Logged(Started(Update)), e.persistence.value.update.acts);
    }
  }

  lemma FinalizeRunKeeps(e: Endpoint, r: Registry, c: Ctx, inserted: bool, end: End)
    requires Inv(c)
    ensures var d := FinalizeRun(e, r, c, inserted, end);
            && Keeps(c, d)
            && Read(d.log).success == Read(c.log).success
            && Read(d.log).phases == FinalTrace(Read(c.log).phases, e, inserted, end.Caught?)
            && (r.fallback == Some(Legacy) && end.Caught? ==> d.committed)
  {
    RunFinalizerKeeps(e, c, end.Caught?);
    var c1 := RunFinalizer(e, c, end.Caught?);
    RunUpdateKeeps(e, c1, inserted);
    if end.Caught? {
      ReportErrorKeeps(r, RunUpdate(e, c1, inserted), PanicIn(end.cause));
    }
  }

  // ----- Whole runs -----

  /** A request as an adapter builds it: any hooks from middleware, nothing done yet. */
  predicate Fresh(c: Ctx) {
    !c.committed && !c.hooksRan && c.log == Empty
  }

  predicate PanicsIn(e: Endpoint, stages: seq<Stage>)
    decreases |stages|
  {
    if stages == [] then e.encoding.EncodePanics?
    else if stages[0].1.out.Done? then PanicsIn(e, stages[1..])
    else stages[0].1.out.Panicked?
  }

  lemma {:induction false} CaughtExactly(e: Endpoint, r: Registry, c: Ctx, stages: seq<Stage>)
    ensures RunStages(r, c, stages, e.encoding).1.Caught? <==> PanicsIn(e, stages)
    decreases |stages|
  {
    if stages != [] && stages[0].1.out.Done? {
      CaughtExactly(e, r, RunScript(c, stages[0].0, stages[0].1), stages[1..]);
    }
  }

  /** The phases of a whole run, as a function of how each script would end. */
  function RunTrace(e: Endpoint): seq<Event> {
    FinalTrace(StageTrace([], Stages(e)), e, Inserted(e), PanicsIn(e, Stages(e)))
  }

  /** What a whole run from c to d promises the client and the hooks. */
  predicate Safe(c: Ctx, d: Ctx) {
    var s := Read(d.log);
    && s.writes <= 1 && (s.writes == 1 ==> d.committed)
    && (s.sent.Some? ==> d.status == s.sent.value)
    && s.hooks <= d.hooks && !s.lateHook
    && (s.tried ==> d.hooksRan) && (if d.hooksRan then c.hooks <= s.hooks else s.hooks == [])
  }

  /** A transport that never fails. */
  ghost predicate Perfect(c: Ctx) {
    forall n :: c.wire(n)
  }

  /**
    Main result. Whatever the scripts, the hooks, the two registries and the transport do:
    at most one whole response goes out; hooks run at most once each, in registration order,
    before anything SendResponse writes, and once it tries to write, all that were there from
    the start have run; a response sent through it has the recorded status; and the phases are
    those of RunTrace.
   */
  lemma AdaptedRunIsSafe(router: Option<Registry>, e: Endpoint, r: Registry, c: Ctx)
    requires Fresh(c)
    ensures var d := Adapt(router, e, r, c); Safe(c, d) && Read(d.log).phases == RunTrace(e)
  {
    var stages := Stages(e);
    RunStagesKeeps(r, c, stages, e.encoding);
    CaughtExactly(e, r, c, stages);
    var (c1, end) := RunStages(r, c, stages, e.encoding);
    FinalizeRunKeeps(e, r, c1, Inserted(e), end);
    var (c2, err) := Serve(e, r, c);
    if err.Some? {
      DispatchKeeps(router, c2, err.value);
    }
  }

  /**
    Main result. With the v1 fallback in the endpoint's registry and a transport that does not
    fail, every run writes exactly one response and ends committed, whatever the router's own
    handler is.
   */
  lemma AdaptedRunWritesOnce(router: Option<Registry>, e: Endpoint, r: Registry, c: Ctx)
    requires Fresh(c)
    requires r.fallback == Some(Legacy) && Perfect(c)
    ensures var d := Adapt(router, e, r, c);
            d.committed && Read(d.log).writes == 1
  {
    var stages := Stages(e);
    RunStagesKeeps(r, c, stages, e.encoding);
    var (c1, end) := RunStages(r, c, stages, e.encoding);
    FinalizeRunKeeps(e, r, c1, Inserted(e), end);
    var (c2, err) := Serve(e, r, c);
    if err.Some? {
      DispatchKeeps(router, c2, err.value);
    }
  }

  /**
    Dispatch without a handler on the router, exactly: it always marks the request committed, but
    writes its 500 if and only if the hooks have run before or none of them fails now.
   */
  lemma BareDispatchExactly(c: Ctx, err: Err)
    requires Inv(c) && !c.committed && Perfect(c)
    ensures var d := Dispatch(None, c, err);
            && d.committed && d.status == 500
            && (Read(d.log).writes == 1 <==> c.hooksRan || FirstError(c.hooks).None?)
  {
    RunHooksKeeps(c);
    if !c.hooksRan {
      ReadHooks(c.log, c.hooks);
    }
  }
}
