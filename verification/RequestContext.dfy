/** The request's commit state and hooks (v2/webFramework/commit.go), and SendResponse. */
module RequestContext {
  import opened Wrappers
  import opened Protocol

  class RequestContext {
    var committed: bool
    var status: int
    var hooks: seq<Hook>
    var hooksRan: bool
    var log: Log
    var attempts: nat
    const wire: nat -> bool

    function View(): Ctx
      reads this
    {
      Ctx(committed, status, hooks, hooksRan, log, attempts, wire)
    }

    constructor (wire: nat -> bool)
      ensures View() == Ctx(false, 0, [], false, Empty, 0, wire)
    {
      this.wire := wire;
      committed, status, hooks, hooksRan, log, attempts := false, 0, [], false, Empty, 0;
    }

    method MarkCommitted(s: int)
      modifies this`committed, this`status
      ensures View() == old(View()).Marked(s)
    {
      if !committed {
        committed, status := true, s;
      }
    }

    method Note(e: Event)
      modifies this`log
      ensures View() == old(View()).Logged(e)
    {
      log := Then(log, e);
    }

    method AddBeforeCommitHook(h: Hook)
      modifies this`hooks
      ensures View() == Act(old(View()), AddHook(h))
    {
      hooks := hooks + [h];
    }

    /** Runs a copy of the hooks once; the first error is kept, the rest still run. */
    method RunBeforeCommitHooks() returns (err: Option<Err>)
      modifies this`hooksRan, this`log
      ensures (View(), err) == RunHooks(old(View()))
    {
      if hooksRan {
        return None;
      }
      hooksRan := true;
      var copied := hooks;
      err := None;
      for i := 0 to |copied|
        invariant hooksRan
        invariant LogHooks(log, copied[i..]) == LogHooks(old(log), copied)
        invariant (if err.Some? then err else FirstError(copied[i..])) == FirstError(copied)
      {
        assert copied[i..][1..] == copied[i + 1..];
        Note(HookRan(copied[i]));
        if copied[i].err.Some? && err.None? {
          err := copied[i].err;
        }
      }
      assert copied[|copied|..] == [];
      assert View() == RunHooks(old(View())).0;
      assert err == FirstError(copied);
    }

    /** One attempt on the wire. */
    method Write(whole: Event, broken: Event) returns (ok: bool)
      modifies this`log, this`attempts
      ensures View() == old(View()).Attempt(whole, broken)
      ensures ok == wire(old(attempts))
    {
      ok := wire(attempts);
      log := Then(log, if ok then whole else broken);
      attempts := attempts + 1;
    }

    method SendResponse(status: int, body: Body) returns (err: Option<Err>)
      modifies this
      ensures (View(), err) == Protocol.SendResponse(old(View()), status, body)
    {
      if committed {
        return None;
      }
      err := RunBeforeCommitHooks();
      if err.Some? {
        return;
      }
      var ok := Write(Wrote(status, body), Broke(status, body));
      if ok {
        MarkCommitted(status);
        return None;
      }
      return Some(WriteFailed);
    }
  }
}
