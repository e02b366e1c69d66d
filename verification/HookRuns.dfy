/**
  Exactly when a run calls its before-commit hooks, among them the one that saves the session,
  with the v1 fallback in the endpoint's registry.
 */
module HookRuns {
  import opened Wrappers
  import opened Protocol
  import opened ProtocolProofs

  /** How the phases come out: to be answered with success, with an error, or after a panic. */
  datatype Ending = Completed | Problem(err: Err) | Crashed(cause: Err)

  function EndingOf(stages: seq<Stage>, encoding: Encoding): Ending {
    if stages == [] then
      match encoding
      case Encoded => Completed
      case EncodeFails(err) => Problem(err)
      case EncodePanics(cause) => Crashed(cause)
    else
      match stages[0].1.out
      case Done => EndingOf(stages[1..], encoding)
      case Failed(err) => Problem(err)
      case Panicked(cause) => Crashed(cause)
  }

  predicate AllPass(stages: seq<Stage>) {
    stages == [] || (stages[0].1.out.Done? && AllPass(stages[1..]))
  }

  /** What the phases that run do to the request. */
  function Reached(stages: seq<Stage>): seq<Action> {
    if stages == [] then []
    else stages[0].1.acts + (if stages[0].1.out.Done? then Reached(stages[1..]) else [])
  }

  /** The request as the phases leave it. */
  function AfterStages(c: Ctx, stages: seq<Stage>): Ctx
    decreases |stages|
  {
    if stages == [] then c
    else
      var c1 := RunScript(c, stages[0].0, stages[0].1);
      if stages[0].1.out.Done? then AfterStages(c1, stages[1..]) else c1
  }

  /** What the finalizer and the update do to the request. */
  function TailActions(e: Endpoint): seq<Action> {
    (if e.finalizer.Some? then e.finalizer.value.acts else [])
    + (if e.persistence.Some? && Inserted(e) then e.persistence.value.update.acts else [])
  }

  function AfterTail(e: Endpoint, c: Ctx): Ctx {
    RunUpdate(e, RunFinalizer(e, c, EndingOf(Stages(e), e.encoding).Crashed?), Inserted(e))
  }

  predicate TriesToAnswer(acts: seq<Action>) {
    exists a :: a in acts && !a.AddHook?
  }

  /** The one action that runs the hooks even of a committed request. */
  predicate ReportsFailure(acts: seq<Action>) {
    exists a :: a in acts && a.CommitFailure?
  }

  /** A preset runs the hooks once its body encodes, the v1 fallback never, other code if it answers. */
  predicate RunsHooks(h: ErrorHandler, c: Ctx) {
    match h
    case Preset(_, encodeErr) => encodeErr.None?
    case Legacy => false
    case Custom(react) => TriesToAnswer(react(c).acts)
  }

  /** The handler registered for the error's status decides; the v1 fallback adds nothing. */
  predicate AnswerRunsHooks(r: Registry, c: Ctx, err: Err) {
    var status := r.resolve(err);
    status in r.handlers && RunsHooks(r.handlers[status], c)
  }

  // ----- Actions -----

  lemma {:induction false} PerformRunsHooks(c: Ctx, acts: seq<Action>)
    requires Inv(c) && !c.committed && !c.hooksRan
    ensures var d := Perform(c, acts);
            && (d.hooksRan <==> TriesToAnswer(acts))
            && (!d.hooksRan ==> !d.committed)
    decreases |acts|
  {
    if acts != [] {
      var a, rest := acts[0], acts[1..];
      assert forall x :: x in acts <==> x == a || x in rest;
      ActKeeps(c, a);
      RunHooksKeeps(c);
      if a.AddHook? {
        PerformRunsHooks(Act(c, a), rest);
      } else {
        PerformKeeps(Act(c, a), rest);
      }
    }
  }

  lemma {:induction false} PerformWhenCommitted(c: Ctx, acts: seq<Action>)
    requires Inv(c) && c.committed && !c.hooksRan
    ensures Perform(c, acts).hooksRan <==> ReportsFailure(acts)
    decreases |acts|
  {
    if acts != [] {
      var a, rest := acts[0], acts[1..];
      assert forall x :: x in acts <==> x == a || x in rest;
      ActKeeps(c, a);
      if a.CommitFailure? {
        PerformKeeps(Act(c, a), rest);
      } else {
        PerformWhenCommitted(Act(c, a), rest);
      }
    }
  }

  // ----- Phases -----

  lemma ScriptRunsHooks(c: Ctx, p: Phase, s: Script)
    requires Inv(c) && !c.committed && !c.hooksRan
    ensures var d := RunScript(c, p, s);
            && Inv(d) && (d.hooksRan <==> TriesToAnswer(s.acts)) && (!d.hooksRan ==> !d.committed)
  {
    RunScriptKeeps(c, p, s);
    PhaseNoted(c, Started(p));
    PerformRunsHooks(c.Logged(Started(p)), s.acts);
  }

  lemma {:induction false} StagesRunHooks(c: Ctx, stages: seq<Stage>)
    requires Inv(c) && !c.committed && !c.hooksRan
    ensures var d := AfterStages(c, stages);
            && Inv(d) && (d.hooksRan <==> TriesToAnswer(Reached(stages))) && (!d.hooksRan ==> !d.committed)
    decreases |stages|
  {
    if stages != [] {
      var (p, s) := stages[0];
      var rest := if s.out.Done? then Reached(stages[1..]) else [];
      assert forall a :: a in Reached(stages) <==> a in s.acts || a in rest;
      ScriptRunsHooks(c, p, s);
      var c1 := RunScript(c, p, s);
      if s.out.Done? {
        if c1.hooksRan {
          AfterStagesKeeps(c1, stages[1..]);
        } else {
          StagesRunHooks(c1, stages[1..]);
        }
      }
    }
  }

  lemma {:induction false} AfterStagesKeeps(c: Ctx, stages: seq<Stage>)
    requires Inv(c)
    ensures Keeps(c, AfterStages(c, stages))
    decreases |stages|
  {
    if stages != [] {
      var (p, s) := stages[0];
      RunScriptKeeps(c, p, s);
      if s.out.Done? {
        AfterStagesKeeps(RunScript(c, p, s), stages[1..]);
      }
    }
  }

  /**
    The answer to a lifecycle comes after its phases. A failed phase gives back the failure to
    answer, or else its own error; a result that does not encode only the failure to answer.
   */
  lemma {:induction false} AnswerFollowsStages(r: Registry, c: Ctx, stages: seq<Stage>, encoding: Encoding)
    ensures var x := AfterStages(c, stages);
            var (d, end) := RunStages(r, c, stages, encoding);
            var ending := EndingOf(stages, encoding);
            && (ending.Completed? ==>
                  d == Commit(x, 200, SuccessBody).0 && end == Returned(Commit(x, 200, SuccessBody).1))
            && (ending.Problem? ==>
                  var wErr := ReportError(r, x, ending.err).1;
                  && d == ReportError(r, x, ending.err).0
                  && end == Returned(if wErr.Some? || AllPass(stages) then wErr else Some(ending.err)))
            && (ending.Crashed? ==> d == x && end == Caught(ending.cause))
    decreases |stages|
  {
    if stages != [] && stages[0].1.out.Done? {
      AnswerFollowsStages(r, RunScript(c, stages[0].0, stages[0].1), stages[1..], encoding);
    }
  }

  // ----- Answers -----

  lemma ReportRunsHooks(r: Registry, c: Ctx, err: Err)
    requires Inv(c) && !c.committed && !c.hooksRan && r.fallback == Some(Legacy)
    ensures var d := ReportError(r, c, err).0;
            && Inv(d) && d.committed
            && (d.hooksRan <==> AnswerRunsHooks(r, c, err))
  {
    ReportErrorKeeps(r, c, err);
    var status := r.resolve(err);
    if status in r.handlers {
      HandlerRunsHooks(r.handlers[status], c, status);
    }
  }

  lemma HandlerRunsHooks(h: ErrorHandler, c: Ctx, status: int)
    requires Inv(c) && !c.committed && !c.hooksRan
    ensures RunHandler(h, c, status).0.hooksRan <==> RunsHooks(h, c)
  {
    match h
    case Preset(s, encodeErr) => if encodeErr.None? { CommitErrorKeeps(c, s, ErrorBody(s)); }
    case Legacy =>
    case Custom(react) => PerformRunsHooks(c, react(c).acts);
  }

  lemma CommitRunsHooks(c: Ctx)
    requires Inv(c) && !c.committed
    ensures Commit(c, 200, SuccessBody).0.hooksRan
  {
    RunHooksKeeps(c);
    CommitExactly(c, 200, SuccessBody);
    CommitKeeps(c, 200, SuccessBody);
  }

  // ----- The part that always runs -----

  lemma TailKeeps(e: Endpoint, c: Ctx)
    requires Inv(c)
    ensures Keeps(c, AfterTail(e, c))
  {
    var caught := EndingOf(Stages(e), e.encoding).Crashed?;
    RunFinalizerKeeps(e, c, caught);
    RunUpdateKeeps(e, RunFinalizer(e, c, caught), Inserted(e));
  }

  lemma TailMembers(e: Endpoint)
    ensures forall a :: a in TailActions(e) <==>
              || (e.finalizer.Some? && a in e.finalizer.value.acts)
              || (e.persistence.Some? && Inserted(e) && a in e.persistence.value.update.acts)
  {
  }

  lemma FinalizerRunsHooks(e: Endpoint, c: Ctx, caught: bool)
    requires Inv(c) && !c.hooksRan
    ensures var d := RunFinalizer(e, c, caught);
            && Inv(d) && (c.committed ==> d.committed)
            && (!c.committed && !d.hooksRan ==> !d.committed)
            && (d.hooksRan <==> e.finalizer.Some?
                                && if c.committed then ReportsFailure(e.finalizer.value.acts)
                                   else TriesToAnswer(e.finalizer.value.acts))
  {
    RunFinalizerKeeps(e, c, caught);
    var c1 := if caught && e.recovery then c.Logged(Started(Recover)) else c;
    PhaseNoted(c, Started(Recover));
    if e.finalizer.Some? {
      var acts := e.finalizer.value.acts;
      PhaseNoted(c1, Started(Finalize));
      if c.committed {
        PerformWhenCommitted(c1.Logged(Started(Finalize)), acts);
      } else {
        PerformRunsHooks(c1.Logged(Started(Finalize)), acts);
      }
    }
  }

  lemma UpdateRunsHooks(e: Endpoint, c: Ctx)
    requires Inv(c) && !c.hooksRan
    ensures var d := RunUpdate(e, c, Inserted(e));
            && Inv(d) && (!c.committed && !d.hooksRan ==> !d.committed)
            && (d.hooksRan <==> e.persistence.Some? && Inserted(e)
                                && if c.committed then ReportsFailure(e.persistence.value.update.acts)
                                   else TriesToAnswer(e.persistence.value.update.acts))
  {
    RunUpdateKeeps(e, c, Inserted(e));
    if e.persistence.Some? && Inserted(e) {
      var acts := e.persistence.value.update.acts;
      PhaseNoted(c, Started(Update));
      if c.committed {
        PerformWhenCommitted(c.Logged(Started(Update)), acts);
      } else {
        PerformRunsHooks(c.Logged(Started(Update)), acts);
      }
    }
  }

  lemma TailRunsHooks(e: Endpoint, c: Ctx)
    requires Inv(c) && !c.hooksRan
    ensures var d := AfterTail(e, c);
            && Inv(d) && (!c.committed && !d.hooksRan ==> !d.committed)
            && (d.hooksRan <==> if c.committed then ReportsFailure(TailActions(e)) else TriesToAnswer(TailActions(e)))
  {
    var caught := EndingOf(Stages(e), e.encoding).Crashed?;
    var c1 := RunFinalizer(e, c, caught);
    TailMembers(e);
    FinalizerRunsHooks(e, c, caught);
    if c1.hooksRan {
      RunUpdateKeeps(e, c1, Inserted(e));
    } else {
      UpdateRunsHooks(e, c1);
    }
  }

  // ----- Whole runs -----

  /** The run in three steps: the phases with their answer, the tail, the answer to a panic. */
  lemma RunInSteps(router: Option<Registry>, e: Endpoint, r: Registry, c: Ctx)
    requires Fresh(c) && r.fallback == Some(Legacy)
    ensures var c1 := RunStages(r, c, Stages(e), e.encoding).0;
            var c2 := AfterTail(e, c1);
            var d := Adapt(router, e, r, c);
            && (d.hooksRan || d.committed)
            && (d.hooksRan <==>
                  || c2.hooksRan
                  || (match EndingOf(Stages(e), e.encoding)
                      case Crashed(cause) => ReportError(r, c2, PanicIn(cause)).0.hooksRan
                      case _ => false))
  {
    AnswerFollowsStages(r, c, Stages(e), e.encoding);
    RunStagesKeeps(r, c, Stages(e), e.encoding);
    var (c1, end) := RunStages(r, c, Stages(e), e.encoding);
    TailKeeps(e, c1);
    FinalizeRunKeeps(e, r, c1, Inserted(e), end);
    var (c2, err) := Serve(e, r, c);
    if err.Some? {
      DispatchKeeps(router, c2, err.value);
    }
    if end.Caught? {
      ReportErrorKeeps(r, AfterTail(e, c1), PanicIn(end.cause));
    }
  }

  /**
    Main result, for every run with the v1 fallback, any other handlers and any transport. The
    hooks run if and only if a phase that is reached tries to answer, or the phases complete, or
    the handler registered for the problem runs them, or the finalizer or the update makes an
    attempt: any attempt after a panic, an error response once the request is committed.
   */
  lemma HooksRunExactly(router: Option<Registry>, e: Endpoint, r: Registry, c: Ctx)
    requires Fresh(c) && r.fallback == Some(Legacy)
    ensures var x := AfterStages(c, Stages(e));
            Adapt(router, e, r, c).hooksRan
            <==> || TriesToAnswer(Reached(Stages(e)))
                 || match EndingOf(Stages(e), e.encoding)
                    case Completed => true
                    case Problem(err) => AnswerRunsHooks(r, x, err) || ReportsFailure(TailActions(e))
                    case Crashed(cause) =>
                      TriesToAnswer(TailActions(e)) || AnswerRunsHooks(r, AfterTail(e, x), PanicIn(cause))
  {
    var x := AfterStages(c, Stages(e));
    RunInSteps(router, e, r, c);
    AnswerFollowsStages(r, c, Stages(e), e.encoding);
    StagesRunHooks(c, Stages(e));
    var c1 := RunStages(r, c, Stages(e), e.encoding).0;
    RunStagesKeeps(r, c, Stages(e), e.encoding);
    TailKeeps(e, c1);
    if x.hooksRan {
      AnswerKeepsRan(r, e, x);
    } else {
      match EndingOf(Stages(e), e.encoding)
      case Completed => CommitRunsHooks(x);
      case Problem(err) =>
        ReportRunsHooks(r, x, err);
        if !c1.hooksRan {
          TailRunsHooks(e, c1);
        }
      case Crashed(cause) =>
        TailRunsHooks(e, x);
        if !AfterTail(e, x).hooksRan {
          ReportRunsHooks(r, AfterTail(e, x), PanicIn(cause));
        }
    }
  }

  lemma AnswerKeepsRan(r: Registry, e: Endpoint, x: Ctx)
    requires Inv(x) && x.hooksRan
    ensures Commit(x, 200, SuccessBody).0.hooksRan
    ensures forall err :: ReportError(r, x, err).0.hooksRan
  {
    CommitKeeps(x, 200, SuccessBody);
    forall err
      ensures ReportError(r, x, err).0.hooksRan
    {
      ReportErrorKeeps(r, x, err);
    }
  }

  /**
    The failing input: the request does not parse and nothing is registered for its error. The
    v1 fallback answers, the run ends committed, and no hook has run: no session is saved.
   */
  lemma FallbackSkipsHooks(router: Option<Registry>, r: Registry, c: Ctx, err: Err, main: Script)
    requires Fresh(c) && r.fallback == Some(Legacy) && r.handlers == map[]
    ensures var e := Endpoint(Script([], Failed(err)), None, None, None, main, Encoded, None, false);
            var d := Adapt(router, e, r, c);
            d.committed && !d.hooksRan && Read(d.log).hooks == []
  {
    var parse := Script([], Failed(err));
    var e := Endpoint(parse, None, None, None, main, Encoded, None, false);
    assert Stages(e)[0] == (Parse, parse);
    assert Reached(Stages(e)) == [] && TailActions(e) == [];
    HooksRunExactly(router, e, r, c);
    RunInSteps(router, e, r, c);
    AdaptedRunIsSafe(router, e, r, c);
  }
}
