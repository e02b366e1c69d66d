/** The response handler, the error registry and the adapters' dispatch (v2/response). */
module Response {
  import opened Wrappers
  import opened Protocol
  import opened R = RequestContext

  method CommitResponse(req: RequestContext, status: int, body: Body) returns (err: Option<Err>)
    modifies req
    ensures (req.View(), err) == Commit(old(req.View()), status, body)
  {
    if req.committed {
      return None;
    }
    err := req.RunBeforeCommitHooks();
    if err.Some? {
      return;
    }
    err := req.SendResponse(status, body);
    if err.Some? {
      return;
    }
    req.MarkCommitted(status);
  }

  method CommitErrorResponse(req: RequestContext, status: int, body: Body) returns (err: Option<Err>)
    modifies req
    ensures (req.View(), err) == CommitError(old(req.View()), status, body)
  {
    var _ := req.RunBeforeCommitHooks();
    err := req.SendResponse(status, body);
    if err.Some? {
      return;
    }
    req.MarkCommitted(status);
  }

  /** Application code at work on its request. */
  method PerformAll(req: RequestContext, acts: seq<Action>)
    modifies req
    ensures req.View() == Perform(old(req.View()), acts)
  {
    for i := 0 to |acts|
      invariant Perform(req.View(), acts[i..]) == Perform(old(req.View()), acts)
    {
      assert acts[i..][1..] == acts[i + 1..];
      match acts[i]
      case AddHook(h) => req.AddBeforeCommitHook(h);
      case Send(s, id) => var _ := req.SendResponse(s, Raw(id));
      case CommitOk(s, id) => var _ := CommitResponse(req, s, Raw(id));
      case CommitFailure(s) => var _ := CommitErrorResponse(req, s, ErrorBody(s));
    }
    assert acts[|acts|..] == [];
  }

  class DefaultRegistry {
    var handlers: map<int, ErrorHandler>
    var fallback: Option<ErrorHandler>
    const resolve: Err -> int
    var frozen: bool

    function View(): Registry
      reads this
    {
      Registry(handlers, fallback, resolve)
    }

    constructor (resolve: Err -> int)
      ensures View() == Registry(map[], None, resolve) && !frozen
    {
      this.resolve := resolve;
      handlers, fallback, frozen := map[], None, false;
    }

    /** Refused once frozen, for a missing handler, and outside 100 to 599; otherwise exactly one entry changes. */
    method Register(status: int, handler: Option<ErrorHandler>) returns (ok: bool)
      modifies this`handlers
      ensures ok <==> !frozen && handler.Some? && 100 <= status <= 599
      ensures handlers == if ok then old(handlers)[status := handler.value] else old(handlers)
    {
      if frozen || handler.None? || status < 100 || status > 599 {
        return false;
      }
      handlers := handlers[status := handler.value];
      return true;
    }

    method SetFallback(handler: Option<ErrorHandler>) returns (ok: bool)
      modifies this`fallback
      ensures ok <==> !frozen && handler.Some?
      ensures fallback == if ok then handler else old(fallback)
    {
      if frozen || handler.None? {
        return false;
      }
      fallback := handler;
      return true;
    }

    method Freeze()
      modifies this`frozen
      ensures frozen
    {
      frozen := true;
    }

    method Invoke(h: ErrorHandler, req: RequestContext, status: int) returns (err: Option<Err>)
      modifies req
      ensures (req.View(), err) == RunHandler(h, old(req.View()), status)
    {
      match h
      case Preset(s, encodeErr) =>
        if encodeErr.Some? {
          return encodeErr;
        }
        err := CommitErrorResponse(req, s, ErrorBody(s));
      case Legacy =>
        var _ := req.Write(LegacyWrote, LegacyBroke);
        req.MarkCommitted(status);
        err := None;
      case Custom(react) =>
        var reaction := react(req.View());
        PerformAll(req, reaction.acts);
        err := reaction.err;
    }

    /** The fallback runs at most once, and only if nothing is committed by then. */
    method Handle(req: RequestContext, err: Err) returns (e: Option<Err>)
      modifies req
      ensures (req.View(), e) == Protocol.Handle(View(), old(req.View()), err)
    {
      if req.committed {
        return Some(err);
      }
      var status := resolve(err);
      if status in handlers {
        e := Invoke(handlers[status], req, status);
        if !req.committed && fallback.Some? {
          e := Invoke(fallback.value, req, status);
        }
        return;
      }
      if fallback.Some? {
        e := Invoke(fallback.value, req, status);
        return;
      }
      return Some(NoHandler);
    }
  }

  class Handler {
    const registry: DefaultRegistry

    constructor (registry: DefaultRegistry)
      ensures this.registry == registry
    {
      this.registry := registry;
    }

    method Error(req: RequestContext, err: Err) returns (e: Option<Err>)
      modifies req
      ensures (req.View(), e) == ReportError(registry.View(), old(req.View()), err)
    {
      if req.committed {
        return Some(err);
      }
      e := registry.Handle(req, err);
    }

    method OKWithRenderer(req: RequestContext, encodeErr: Option<Err>) returns (e: Option<Err>)
      modifies req
      ensures (req.View(), e) == RespondOk(registry.View(), old(req.View()), encodeErr)
    {
      if encodeErr.Some? {
        e := Error(req, encodeErr.value);
        return;
      }
      e := CommitResponse(req, 200, SuccessBody);
    }
  }

  method DispatchError(h: Handler?, req: RequestContext, err: Err)
    modifies req
    ensures req.View()
         == Dispatch(if h == null then None else Some(h.registry.View()), old(req.View()), err)
  {
    if h != null {
      var _ := h.Error(req, err);
      if req.committed {
        return;
      }
    }
    var _ := req.SendResponse(500, FallbackBody);
    req.MarkCommitted(500);
  }
}
