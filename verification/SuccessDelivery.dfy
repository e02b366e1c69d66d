/** Exactly when a run sends its success body, and what a failing before-commit hook does to that. */
module SuccessDelivery {
  import opened Wrappers
  import opened Protocol
  import opened ProtocolProofs

  predicate AllDone(stages: seq<Stage>) {
    forall s :: s in stages ==> s.1.out.Done?
  }

  /** Everything the phases do to their request, in order. */
  function ActionsOf(stages: seq<Stage>): seq<Action> {
    if stages == [] then [] else stages[0].1.acts + ActionsOf(stages[1..])
  }

  /** What is left without the registering of hooks: attempts to answer. */
  function Writes(acts: seq<Action>): seq<Action> {
    if acts == [] then [] else (if acts[0].AddHook? then [] else [acts[0]]) + Writes(acts[1..])
  }

  /** The hooks registered before the first attempt to answer. */
  function EarlyHooks(acts: seq<Action>): seq<Hook> {
    if acts == [] || !acts[0].AddHook? then [] else [acts[0].hook] + EarlyHooks(acts[1..])
  }

  predicate SomeHookFails(hooks: seq<Hook>) {
    FirstError(hooks).Some?
  }

  /** The writes from the n-th on, k of them, all break. */
  predicate AllBreak(wire: nat -> bool, n: nat, k: nat) {
    forall i: nat :: n <= i < n + k ==> !wire(i)
  }

  /** A failing hook refuses the first attempt to answer, unless that is an error response. */
  predicate Refused(hooks: seq<Hook>, acts: seq<Action>) {
    var writes := Writes(acts);
    writes != [] && !writes[0].CommitFailure? && SomeHookFails(hooks + EarlyHooks(acts))
  }

  /** How many attempts to answer get to the transport. */
  function Attempted(hooks: seq<Hook>, acts: seq<Action>): nat {
    |Writes(acts)| - (if Refused(hooks, acts) then 1 else 0)
  }

  /**
    Do the phases leave room for the success body? No hook fails or the hooks are used up by an
    attempt to answer; every attempt that got to the transport broke; and the next write will not.
   */
  predicate LeavesRoom(hooks: seq<Hook>, acts: seq<Action>, wire: nat -> bool, n: nat) {
    var k := Attempted(hooks, acts);
    && (Writes(acts) == [] ==> !SomeHookFails(hooks + EarlyHooks(acts)))
    && AllBreak(wire, n, k) && wire(n + k)
  }

  // ----- The same, action by action -----

  predicate RoomFrom(hooks: seq<Hook>, ran: bool, acts: seq<Action>, wire: nat -> bool, n: nat)
    decreases |acts|
  {
    if acts == [] then (ran || !SomeHookFails(hooks)) && wire(n)
    else if acts[0].AddHook? then RoomFrom(hooks + [acts[0].hook], ran, acts[1..], wire, n)
    else if !acts[0].CommitFailure? && !ran && SomeHookFails(hooks) then RoomFrom(hooks, true, acts[1..], wire, n)
    else !wire(n) && RoomFrom(hooks, true, acts[1..], wire, n + 1)
  }

  lemma {:induction false} RoomOnceRan(hooks: seq<Hook>, acts: seq<Action>, wire: nat -> bool, n: nat)
    ensures RoomFrom(hooks, true, acts, wire, n) <==> AllBreak(wire, n, |Writes(acts)|) && wire(n + |Writes(acts)|)
    decreases |acts|
  {
    if acts != [] {
      if acts[0].AddHook? {
        RoomOnceRan(hooks + [acts[0].hook], acts[1..], wire, n);
      } else {
        RoomOnceRan(hooks, acts[1..], wire, n + 1);
        OneMoreBreaks(wire, n, |Writes(acts[1..])|);
      }
    }
  }

  lemma OneMoreBreaks(wire: nat -> bool, n: nat, k: nat)
    ensures AllBreak(wire, n, k + 1) <==> !wire(n) && AllBreak(wire, n + 1, k)
  {
    if !wire(n) && AllBreak(wire, n + 1, k) {
      forall i: nat | n <= i < n + (k + 1)
        ensures !wire(i)
      {
        assert i == n || n + 1 <= i < (n + 1) + k;
      }
    }
  }

  lemma {:induction false} RoomIsLeft(hooks: seq<Hook>, acts: seq<Action>, wire: nat -> bool, n: nat)
    ensures RoomFrom(hooks, false, acts, wire, n) <==> LeavesRoom(hooks, acts, wire, n)
    decreases |acts|
  {
    if acts == [] {
      assert hooks + [] == hooks;
    } else if acts[0].AddHook? {
      RoomIsLeft(hooks + [acts[0].hook], acts[1..], wire, n);
      assert (hooks + [acts[0].hook]) + EarlyHooks(acts[1..]) == hooks + EarlyHooks(acts);
    } else {
      assert hooks + [] == hooks;
      assert |Writes(acts)| == 1 + |Writes(acts[1..])|;
      if Refused(hooks, acts) {
        RoomOnceRan(hooks, acts[1..], wire, n);
      } else {
        RoomOnceRan(hooks, acts[1..], wire, n + 1);
        OneMoreBreaks(wire, n, |Writes(acts[1..])|);
      }
    }
  }

  /** The room a request as it stands leaves for what is still to be done. */
  predicate Room(c: Ctx, acts: seq<Action>) {
    RoomFrom(c.hooks, c.hooksRan, acts, c.wire, c.attempts)
  }

  lemma OneAction(c: Ctx, a: Action, rest: seq<Action>)
    requires Inv(c) && !c.committed
    ensures var d := Act(c, a);
            Inv(d) && (Room(c, [a] + rest) <==> !d.committed && Room(d, rest))
  {
    assert ([a] + rest)[1..] == rest;
    ActKeeps(c, a);
    RunHooksKeeps(c);
  }

  /** The actions done so far decide what room is left for the rest. */
  lemma {:induction false} RoomAfter(c: Ctx, acts: seq<Action>, rest: seq<Action>)
    requires Inv(c) && !c.committed
    ensures var d := Perform(c, acts);
            Room(c, acts + rest) <==> !d.committed && Room(d, rest)
    decreases |acts|
  {
    if acts == [] {
      assert acts + rest == rest;
    } else {
      var d := Act(c, acts[0]);
      OneAction(c, acts[0], acts[1..] + rest);
      assert acts + rest == [acts[0]] + (acts[1..] + rest);
      if d.committed {
        PerformKeeps(d, acts[1..]);
      } else {
        RoomAfter(d, acts[1..], rest);
      }
    }
  }

  lemma ScriptRoom(c: Ctx, p: Phase, s: Script, rest: seq<Action>)
    requires Inv(c) && !c.committed
    ensures var d := RunScript(c, p, s);
            && Inv(d) && Read(d.log).success == Read(c.log).success
            && (Room(c, s.acts + rest) <==> !d.committed && Room(d, rest))
  {
    RunScriptKeeps(c, p, s);
    PhaseNoted(c, Started(p));
    RoomAfter(c.Logged(Started(p)), s.acts, rest);
  }

  /** Once committed, a run has no success body to add. */
  lemma {:induction false} CommittedStaysSilent(r: Registry, c: Ctx, stages: seq<Stage>, encoding: Encoding)
    requires Inv(c) && c.committed
    ensures Read(RunStages(r, c, stages, encoding).0.log).success == Read(c.log).success
    decreases |stages|
  {
    if stages != [] {
      var (p, s) := stages[0];
      RunScriptKeeps(c, p, s);
      if s.out.Done? {
        CommittedStaysSilent(r, RunScript(c, p, s), stages[1..], encoding);
      }
    }
  }

  lemma SuccessAtTheEnd(r: Registry, c: Ctx, encoding: Encoding)
    requires Inv(c) && !c.committed && !Read(c.log).success
    ensures Read(RunStages(r, c, [], encoding).0.log).success
            <==> encoding.Encoded? && Room(c, [])
  {
    match encoding
    case Encoded =>
      CommitExactly(c, 200, SuccessBody);
      RunHooksKeeps(c);
    case EncodeFails(err) => ReportErrorKeeps(r, c, err);
    case EncodePanics(_) =>
  }

  lemma {:induction false} StagesSucceedExactly(r: Registry, c: Ctx, stages: seq<Stage>, encoding: Encoding)
    requires Inv(c) && !c.committed && !Read(c.log).success
    ensures Read(RunStages(r, c, stages, encoding).0.log).success
            <==> AllDone(stages) && encoding.Encoded? && Room(c, ActionsOf(stages))
    decreases |stages|
  {
    if stages == [] {
      SuccessAtTheEnd(r, c, encoding);
    } else {
      var (p, s) := stages[0];
      assert stages[0] in stages && forall x :: x in stages <==> x == stages[0] || x in stages[1..];
      ScriptRoom(c, p, s, ActionsOf(stages[1..]));
      var c1 := RunScript(c, p, s);
      if s.out.Failed? {
        ReportErrorKeeps(r, c1, s.out.err);
      } else if s.out.Done? && c1.committed {
        CommittedStaysSilent(r, c1, stages[1..], encoding);
      } else if s.out.Done? {
        StagesSucceedExactly(r, c1, stages[1..], encoding);
      }
    }
  }

  /** Finalizer, update, panic answer and dispatch neither add nor remove a success body. */
  lemma OnlyStagesSucceed(router: Option<Registry>, e: Endpoint, r: Registry, c: Ctx)
    requires Fresh(c)
    ensures Read(Adapt(router, e, r, c).log).success
            == Read(RunStages(r, c, Stages(e), e.encoding).0.log).success
  {
    RunStagesKeeps(r, c, Stages(e), e.encoding);
    var (c1, end) := RunStages(r, c, Stages(e), e.encoding);
    FinalizeRunKeeps(e, r, c1, Inserted(e), end);
    var (c2, err) := Serve(e, r, c);
    if err.Some? {
      DispatchKeeps(router, c2, err.value);
    }
  }

  /**
    Main result, for every adapted run and any transport. The success body is sent if and only if
    every phase is done, the result encodes, and the phases leave room for it.
   */
  lemma SuccessSentExactly(router: Option<Registry>, e: Endpoint, r: Registry, c: Ctx)
    requires Fresh(c)
    ensures Read(Adapt(router, e, r, c).log).success
            <==> && AllDone(Stages(e)) && e.encoding.Encoded?
                 && LeavesRoom(c.hooks, ActionsOf(Stages(e)), c.wire, c.attempts)
  {
    OnlyStagesSucceed(router, e, r, c);
    StagesSucceedExactly(r, c, Stages(e), e.encoding);
    RoomIsLeft(c.hooks, ActionsOf(Stages(e)), c.wire, c.attempts);
  }

  /**
    So, over any transport, if no phase tries to answer by itself and some hook fails, be it from
    middleware or registered by a phase, the success body never reaches the client.
   */
  lemma FailingHookNeverSendsSuccess(router: Option<Registry>, e: Endpoint, r: Registry, c: Ctx)
    requires Fresh(c)
    requires var acts := ActionsOf(Stages(e)); Writes(acts) == [] && SomeHookFails(c.hooks + EarlyHooks(acts))
    ensures !Read(Adapt(router, e, r, c).log).success
  {
    SuccessSentExactly(router, e, r, c);
  }

  lemma {:induction false} FailureSurvives(hooks: seq<Hook>, more: seq<Hook>)
    requires SomeHookFails(hooks)
    ensures SomeHookFails(hooks + more)
  {
    if hooks[0].err.None? {
      assert (hooks + more)[1..] == hooks[1..] + more;
      FailureSurvives(hooks[1..], more);
    }
  }

  /**
    Main result, over a transport that does not fail. Some hook fails that was registered before
    the first attempt to answer: then the success body is sent all the same if and only if the
    phases are done, the result encodes, and they tried to answer exactly once by something other
    than an error response.
   */
  lemma FailingHookExactly(router: Option<Registry>, e: Endpoint, r: Registry, c: Ctx)
    requires Fresh(c) && Perfect(c) && SomeHookFails(c.hooks + EarlyHooks(ActionsOf(Stages(e))))
    ensures var writes := Writes(ActionsOf(Stages(e)));
            Read(Adapt(router, e, r, c).log).success
            <==> AllDone(Stages(e)) && e.encoding.Encoded? && |writes| == 1 && !writes[0].CommitFailure?
  {
    SuccessSentExactly(router, e, r, c);
    var k := Attempted(c.hooks, ActionsOf(Stages(e)));
    assert AllBreak(c.wire, c.attempts, k) <==> k == 0 by {
      assert c.wire(c.attempts);
    }
  }

  /** The failing input: a main handler that sends one answer and ignores that the hook refused it. */
  lemma IgnoredWriteHidesTheHook(router: Option<Registry>, r: Registry, hookErr: Err)
    ensures var c := Ctx(false, 0, [Hook(0, Some(hookErr))], false, Empty, 0, _ => true);
            var ok := Script([], Done);
            var e := Endpoint(ok, None, None, None, Script([Send(200, 0)], Done), Encoded, None, false);
            Read(Adapt(router, e, r, c).log).success
  {
    var c := Ctx(false, 0, [Hook(0, Some(hookErr))], false, Empty, 0, _ => true);
    var ok, main := Script([], Done), Script([Send(200, 0)], Done);
    var e := Endpoint(ok, None, None, None, main, Encoded, None, false);
    assert Stages(e) == [(Parse, ok), (Main, main)];
    assert Stages(e)[1..] == [(Main, main)] && [(Main, main)][1..] == [];
    assert ActionsOf([(Main, main)]) == main.acts + [] == main.acts;
    assert ActionsOf(Stages(e)) == [] + main.acts == main.acts;
    assert main.acts[1..] == [];
    FailureSurvives(c.hooks, EarlyHooks(main.acts));
    FailingHookExactly(router, e, r, c);
  }
}
