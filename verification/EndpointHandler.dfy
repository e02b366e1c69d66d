/** The endpoint handler (v2/handlers/base_handler.go) and the adapter around it, step by step. */
module EndpointHandler {
  import opened Wrappers
  import opened Protocol
  import opened RequestContext
  import opened ProtocolProofs
  import opened LifecycleOrder
  import opened Response

  /** Runs one application phase and tells how it ended. */
  method RunPhase(req: RequestContext, p: Phase, s: Script) returns (out: Outcome)
    modifies req
    ensures req.View() == RunScript(old(req.View()), p, s) && out == s.out
  {
    req.Note(Started(p));
    PerformAll(req, s.acts);
    if s.out.Done? {
      req.Note(Passed(p));
    }
    return s.out;
  }

  /** What runLifecycle does when a phase is not done: a panic unwinds, a failure is answered. */
  method Abort(h: Handler, req: RequestContext, out: Outcome) returns (end: End)
    requires !out.Done?
    modifies req
    ensures (req.View(), end) == Stop(h.registry.View(), old(req.View()), out)
  {
    match out
    case Panicked(cause) => return Caught(cause);
    case Failed(err) =>
      var wErr := h.Error(req, err);
      return Returned(Some(if wErr.Some? then wErr.value else err));
  }

  lemma OneStage(r: Registry, c: Ctx, p: Phase, s: Script, rest: seq<Stage>, encoding: Encoding)
    ensures RunStages(r, c, Optional(p, Some(s)) + rest, encoding)
            == if s.out.Done? then RunStages(r, RunScript(c, p, s), rest, encoding)
               else Stop(r, RunScript(c, p, s), s.out)
  {
    assert (Optional(p, Some(s)) + rest)[1..] == rest;
  }

  lemma NoStage(r: Registry, c: Ctx, p: Phase, rest: seq<Stage>, encoding: Encoding)
    ensures RunStages(r, c, Optional(p, None) + rest, encoding) == RunStages(r, c, rest, encoding)
  {
    assert Optional(p, None) + rest == rest;
  }

  /** An optional phase: None when the lifecycle goes on, its end otherwise. */
  method RunOptional(h: Handler, req: RequestContext, p: Phase, s: Option<Script>,
                     ghost rest: seq<Stage>, ghost encoding: Encoding)
    returns (end: Option<End>)
    modifies req
    ensures var all := RunStages(h.registry.View(), old(req.View()), Optional(p, s) + rest, encoding);
            if end.Some? then (req.View(), end.value) == all
            else RunStages(h.registry.View(), req.View(), rest, encoding) == all
    ensures end.None? <==> (s.Some? ==> s.value.out.Done?)
  {
    if s.None? {
      NoStage(h.registry.View(), req.View(), p, rest, encoding);
      return None;
    }
    OneStage(h.registry.View(), req.View(), p, s.value, rest, encoding);
    var out := RunPhase(req, p, s.value);
    if out.Done? {
      return None;
    }
    var stop := Abort(h, req, out);
    return Some(stop);
  }

  /** Parse, parse the id, insert, initialize, handle, render. */
  method RunLifecycle(e: Endpoint, h: Handler, req: RequestContext) returns (inserted: bool, end: End)
    modifies req
    ensures (req.View(), end) == RunStages(h.registry.View(), old(req.View()), Stages(e), e.encoding)
    ensures inserted <==> ReachesInsert(e) && InsertOf(e).Some? && IsDone(InsertOf(e))
  {
    inserted := false;
    var insert := InsertOf(e);
    ghost var last := [(Main, e.main)];
    ghost var inits := Optional(Initialize, e.initializer) + last;
    ghost var inserts := Optional(Insert, insert) + inits;
    ghost var ids := Optional(IdParse, e.idParser) + inserts;
    assert Stages(e) == Optional(Parse, Some(e.parse)) + ids;
    assert last == Optional(Main, Some(e.main)) + [];

    var stop := RunOptional(h, req, Parse, Some(e.parse), ids, e.encoding);
    if stop.Some? {
      return inserted, stop.value;
    }
    stop := RunOptional(h, req, IdParse, e.idParser, inserts, e.encoding);
    if stop.Some? {
      return inserted, stop.value;
    }
    stop := RunOptional(h, req, Insert, insert, inits, e.encoding);
    if stop.Some? {
      return inserted, stop.value;
    }
    inserted := insert.Some?;
    stop := RunOptional(h, req, Initialize, e.initializer, last, e.encoding);
    if stop.Some? {
      return inserted, stop.value;
    }
    stop := RunOptional(h, req, Main, Some(e.main), [], e.encoding);
    if stop.Some? {
      return inserted, stop.value;
    }
    match e.encoding
    case EncodePanics(cause) => end := Caught(cause);
    case Encoded =>
      var err := h.OKWithRenderer(req, None);
      end := Returned(err);
    case EncodeFails(encodeErr) =>
      var err := h.OKWithRenderer(req, Some(encodeErr));
      end := Returned(err);
  }

  /** The recovery notice, the finalizer, the update, then the answer to a panic. */
  method FinalizeRequest(e: Endpoint, h: Handler, req: RequestContext, inserted: bool, end: End)
    modifies req
    ensures req.View() == FinalizeRun(e, h.registry.View(), old(req.View()), inserted, end)
  {
    if end.Caught? && e.recovery {
      req.Note(Started(Recover));
    }
    if e.finalizer.Some? {
      var _ := RunPhase(req, Finalize, e.finalizer.value);
    }
    if e.persistence.Some? && inserted {
      req.Note(Started(Update));
      PerformAll(req, e.persistence.value.update.acts);
    }
    if end.Caught? && !req.committed {
      var _ := h.Error(req, PanicIn(end.cause));
    }
  }

  method ServeEndpoint(e: Endpoint, h: Handler, req: RequestContext) returns (err: Option<Err>)
    modifies req
    ensures (req.View(), err) == Serve(e, h.registry.View(), old(req.View()))
  {
    var inserted, end := RunLifecycle(e, h, req);
    InsertedExactly(e);
    FinalizeRequest(e, h, req, inserted, end);
    if end.Caught? || req.committed {
      return None;
    }
    return end.err;
  }

  /** The theorems about adapted runs, ready for the method below. */
  lemma WrapHandlerKeeps(router: Option<Registry>, e: Endpoint, r: Registry, c: Ctx)
    ensures Fresh(c) ==>
              var d := Adapt(router, e, r, c);
              var t := Read(d.log).phases;
              Safe(c, d) && InOrder(t) && MainComesLast(t, e) && TailComesAfter(t)
    ensures Fresh(c) && Perfect(c) && r.fallback == Some(Legacy) ==>
              var d := Adapt(router, e, r, c);
              d.committed && Read(d.log).writes == 1
  {
    if Fresh(c) {
      AdaptedRunIsSafe(router, e, r, c);
      AdaptedRunIsOrdered(router, e, r, c);
      if Perfect(c) && r.fallback == Some(Legacy) {
        AdaptedRunWritesOnce(router, e, r, c);
      }
    }
  }

  /** wrapHandler: `router` is the adapter's own response handler, which may be missing. */
  method WrapHandler(router: Handler?, e: Endpoint, h: Handler, req: RequestContext)
    modifies req
    ensures req.View()
         == Adapt(if router == null then None else Some(router.registry.View()),
                  e, h.registry.View(), old(req.View()))
    ensures Fresh(old(req.View())) ==>
              var t := Read(req.log).phases;
              Safe(old(req.View()), req.View()) && InOrder(t) && MainComesLast(t, e) && TailComesAfter(t)
    ensures Fresh(old(req.View())) && Perfect(old(req.View())) && h.registry.fallback == Some(Legacy) ==>
              req.committed && Read(req.log).writes == 1
  {
    WrapHandlerKeeps(if router == null then None else Some(router.registry.View()),
                     e, h.registry.View(), req.View());
    var err := ServeEndpoint(e, h, req);
    if err.Some? && !req.committed {
      DispatchError(router, req, err.value);
    }
  }
}
