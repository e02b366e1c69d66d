/**
  The v2 response protocol as functions on a request's state: the commit state and
  before-commit hooks (v2/webFramework/commit.go), the transport's SendResponse
  (v2/libNetHttp/parser.go), the response handler, its error registry and the adapter's
  error dispatch (v2/response). Every observable action is appended to one log.
 */
module Protocol {
  import opened Wrappers

  /** Errors are told apart, never inspected; a registry's resolver maps them to a status. */
  datatype Err = App(id: nat) | WriteFailed | NoHandler | PanicIn(cause: Err)

  datatype Body = Raw(id: nat) | SuccessBody | ErrorBody(status: int) | FallbackBody

  datatype Phase = Parse | IdParse | Insert | Initialize | Main | Recover | Finalize | Update

  /** A before-commit hook: it writes nothing and returns an error or not. */
  datatype Hook = Hook(id: nat, err: Option<Err>)

  datatype Event =
    | HookRan(hook: Hook)
    | Wrote(status: int, body: Body)
    | Broke(status: int, body: Body)
    | LegacyWrote
    | LegacyBroke
    | Started(phase: Phase)
    | Passed(phase: Phase)

  datatype Log = Empty | Then(before: Log, event: Event)

  /**
    A request in progress. `wire(n)` says whether the write attempted after n others
    reaches the client whole.
   */
  datatype Ctx = Ctx(committed: bool, status: int, hooks: seq<Hook>, hooksRan: bool,
                     log: Log, attempts: nat, wire: nat -> bool) {
    function Logged(e: Event): Ctx {
      this.(log := Then(log, e))
    }

    /** The first commit wins. */
    function Marked(s: int): Ctx {
      if committed then this else this.(committed := true, status := s)
    }

    function Attempt(whole: Event, broken: Event): Ctx {
      Logged(if wire(attempts) then whole else broken).(attempts := attempts + 1)
    }
  }

  function LogHooks(log: Log, hooks: seq<Hook>): Log
    decreases |hooks|
  {
    if hooks == [] then log else LogHooks(Then(log, HookRan(hooks[0])), hooks[1..])
  }

  function FirstError(hooks: seq<Hook>): Option<Err> {
    if hooks == [] then None
    else if hooks[0].err.Some? then hooks[0].err
    else FirstError(hooks[1..])
  }

  function RunHooks(c: Ctx): (Ctx, Option<Err>) {
    if c.hooksRan then (c, None)
    else (c.(hooksRan := true, log := LogHooks(c.log, c.hooks)), FirstError(c.hooks))
  }

  function SendResponse(c: Ctx, status: int, body: Body): (Ctx, Option<Err>) {
    if c.committed then (c, None)
    else
      var (c1, err) := RunHooks(c);
      if err.Some? then (c1, err)
      else
        var c2 := c1.Attempt(Wrote(status, body), Broke(status, body));
        if c1.wire(c1.attempts) then (c2.Marked(status), None) else (c2, Some(WriteFailed))
  }

  /** Handler.commit: a failing hook stops a success response. */
  function Commit(c: Ctx, status: int, body: Body): (Ctx, Option<Err>) {
    if c.committed then (c, None)
    else
      var (c1, hookErr) := RunHooks(c);
      if hookErr.Some? then (c1, hookErr)
      else
        var (c2, err) := SendResponse(c1, status, body);
        if err.Some? then (c2, err) else (c2.Marked(status), None)
  }

  /** commitError: a failing hook is only logged. */
  function CommitError(c: Ctx, status: int, body: Body): (Ctx, Option<Err>) {
    var (c1, _) := RunHooks(c);
    var (c2, err) := SendResponse(c1, status, body);
    if err.Some? then (c2, err) else (c2.Marked(status), None)
  }

  /** What application code does to its request through the v2 interfaces. */
  datatype Action =
    | AddHook(hook: Hook)
    | Send(status: int, id: nat)
    | CommitOk(status: int, id: nat)
    | CommitFailure(status: int)

  function Act(c: Ctx, a: Action): Ctx {
    match a
    case AddHook(h) => c.(hooks := c.hooks + [h])
    case Send(s, id) => SendResponse(c, s, Raw(id)).0
    case CommitOk(s, id) => Commit(c, s, Raw(id)).0
    case CommitFailure(s) => CommitError(c, s, ErrorBody(s)).0
  }

  function Perform(c: Ctx, acts: seq<Action>): Ctx
    decreases |acts|
  {
    if acts == [] then c else Perform(Act(c, acts[0]), acts[1..])
  }

  // ----- The error registry -----

  datatype Reaction = Reaction(acts: seq<Action>, err: Option<Err>)

  /** A default preset, the v1 fallback, or application code that may look at the request. */
  datatype ErrorHandler =
    | Preset(status: int, encodeErr: Option<Err>)
    | Legacy
    | Custom(react: Ctx -> Reaction)

  datatype Registry = Registry(handlers: map<int, ErrorHandler>, fallback: Option<ErrorHandler>,
                               resolve: Err -> int)

  /** The v1 handler writes past the hooks and the commit state, which is then marked. */
  function LegacyError(c: Ctx, status: int): Ctx {
    c.Attempt(LegacyWrote, LegacyBroke).Marked(status)
  }

  function RunHandler(h: ErrorHandler, c: Ctx, status: int): (Ctx, Option<Err>) {
    match h
    case Preset(s, encodeErr) => if encodeErr.Some? then (c, encodeErr) else CommitError(c, s, ErrorBody(s))
    case Legacy => (LegacyError(c, status), None)
    case Custom(react) => (Perform(c, react(c).acts), react(c).err)
  }

  function Handle(r: Registry, c: Ctx, err: Err): (Ctx, Option<Err>) {
    if c.committed then (c, Some(err))
    else
      var status := r.resolve(err);
      if status in r.handlers then
        var (c1, hErr) := RunHandler(r.handlers[status], c, status);
        if !c1.committed && r.fallback.Some? then RunHandler(r.fallback.value, c1, status) else (c1, hErr)
      else if r.fallback.Some? then RunHandler(r.fallback.value, c, status)
      else (c, Some(NoHandler))
  }

  function ReportError(r: Registry, c: Ctx, err: Err): (Ctx, Option<Err>) {
    if c.committed then (c, Some(err)) else Handle(r, c, err)
  }

  /** OKWithRenderer: an encoding failure is answered through the registry. */
  function RespondOk(r: Registry, c: Ctx, encodeErr: Option<Err>): (Ctx, Option<Err>) {
    if encodeErr.Some? then ReportError(r, c, encodeErr.value) else Commit(c, 200, SuccessBody)
  }

  /** DispatchError: the router's own handler if it has one, then a fixed 500. */
  function Dispatch(r: Option<Registry>, c: Ctx, err: Err): Ctx {
    var c1 := if r.Some? then ReportError(r.value, c, err).0 else c;
    if r.Some? && c1.committed then c1
    else SendResponse(c1, 500, FallbackBody).0.Marked(500)
  }

  // ----- The endpoint lifecycle (v2/handlers/base_handler.go) -----

  datatype Outcome = Done | Failed(err: Err) | Panicked(cause: Err)

  /** One run of an application phase: what it does to the request, and how it ends. */
  datatype Script = Script(acts: seq<Action>, out: Outcome)

  datatype Persistence = Persistence(insert: Script, update: Reaction)

  datatype Encoding = Encoded | EncodeFails(err: Err) | EncodePanics(cause: Err)

  datatype Endpoint = Endpoint(parse: Script, idParser: Option<Script>, persistence: Option<Persistence>,
                               initializer: Option<Script>, main: Script, encoding: Encoding,
                               finalizer: Option<Script>, recovery: bool)

  type Stage = (Phase, Script)

  function Optional(p: Phase, s: Option<Script>): seq<Stage> {
    if s.Some? then [(p, s.value)] else []
  }

  /** The phases of an endpoint, in order; each runs only if the one before it is done. */
  function Stages(e: Endpoint): seq<Stage> {
    [(Parse, e.parse)]
    + (Optional(IdParse, e.idParser)
       + (Optional(Insert, if e.persistence.Some? then Some(e.persistence.value.insert) else None)
          + (Optional(Initialize, e.initializer)
             + [(Main, e.main)])))
  }

  /** How a lifecycle ends: it returns an error or not, or a panic is caught. */
  datatype End = Returned(err: Option<Err>) | Caught(cause: Err)

  function RunScript(c: Ctx, p: Phase, s: Script): Ctx {
    var c1 := Perform(c.Logged(Started(p)), s.acts);
    if s.out.Done? then c1.Logged(Passed(p)) else c1
  }

  /** A failed phase is answered at once; what is returned is the failure to answer, or the failure. */
  function Stop(r: Registry, c: Ctx, out: Outcome): (Ctx, End)
    requires !out.Done?
  {
    match out
    case Panicked(e) => (c, Caught(e))
    case Failed(e) =>
      var (c1, wErr) := ReportError(r, c, e);
      (c1, Returned(Some(if wErr.Some? then wErr.value else e)))
  }

  function RunStages(r: Registry, c: Ctx, stages: seq<Stage>, encoding: Encoding): (Ctx, End)
    decreases |stages|
  {
    if stages == [] then
      match encoding
      case EncodePanics(e) => (c, Caught(e))
      case Encoded => var (c1, err) := RespondOk(r, c, None); (c1, Returned(err))
      case EncodeFails(e) => var (c1, err) := RespondOk(r, c, Some(e)); (c1, Returned(err))
    else
      var (p, s) := stages[0];
      var c1 := RunScript(c, p, s);
      if s.out.Done? then RunStages(r, c1, stages[1..], encoding) else Stop(r, c1, s.out)
  }

  /** The phase events of a run of the stages: each starts, and lets the next start if it is done. */
  function StageTrace(seen: seq<Event>, stages: seq<Stage>): seq<Event>
    decreases |stages|
  {
    if stages == [] then seen
    else
      var (p, s) := stages[0];
      var started := seen + [Started(p)];
      if s.out.Done? then StageTrace(started + [Passed(p)], stages[1..]) else started
  }

  predicate Inserted(e: Endpoint) {
    Passed(Insert) in StageTrace([], Stages(e))
  }

  function RunFinalizer(e: Endpoint, c: Ctx, caught: bool): Ctx {
    var c1 := if caught && e.recovery then c.Logged(Started(Recover)) else c;
    if e.finalizer.Some? then RunScript(c1, Finalize, e.finalizer.value) else c1
  }

  function RunUpdate(e: Endpoint, c: Ctx, inserted: bool): Ctx {
    if e.persistence.Some? && inserted
    then Perform(c.Logged(Started(Update)), e.persistence.value.update.acts)
    else c
  }

  function FinalizeRun(e: Endpoint, r: Registry, c: Ctx, inserted: bool, end: End): Ctx {
    var c1 := RunUpdate(e, RunFinalizer(e, c, end.Caught?), inserted);
    if end.Caught? && !c1.committed then ReportError(r, c1, PanicIn(end.cause)).0 else c1
  }

  function Serve(e: Endpoint, r: Registry, c: Ctx): (Ctx, Option<Err>) {
    var (c1, end) := RunStages(r, c, Stages(e), e.encoding);
    var c2 := FinalizeRun(e, r, c1, Inserted(e), end);
    (c2, if end.Caught? || c2.committed then None else end.err)
  }

  /** wrapHandler: an error that comes back uncommitted is dispatched through the router's handler. */
  function Adapt(router: Option<Registry>, e: Endpoint, r: Registry, c: Ctx): Ctx {
    var (c1, err) := Serve(e, r, c);
    if err.Some? && !c1.committed then Dispatch(router, c1, err.value) else c1
  }
}
