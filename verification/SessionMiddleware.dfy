/**
  The session manager and middleware (v2/session/manager.go, middleware.go): load from
  the request cookie, persist in a before-commit hook, and what that makes of flash
  messages across a client's whole history of requests.
 */
module SessionMiddleware {
  import opened Wrappers
  import opened Session
  import F = Flash

  type StoreRead = string -> Option<Saved>

  datatype CookieResult = Unchanged | Cookie(token: string) | SaveFailed

  /** An absent cookie and one the store refuses both give a new session. */
  method LoadFromCookie(cookie: string, read: StoreRead, freshId: string, now: int)
    returns (s: Session, f: F.Flash)
    ensures fresh(s) && fresh(f)
    ensures var loaded := if cookie == "" then None else read(cookie);
            && s.View() == State(if loaded.Some? then loaded.value.data else map[], false, 0)
            && s.id == (if loaded.Some? then loaded.value.id else freshId)
            && s.createdAt == (if loaded.Some? then loaded.value.createdAt else now)
            && f.View() == F.Box(if loaded.Some? then F.FlashOf(loaded.value.data) else map[], map[])
  {
    var loaded := if cookie == "" then None else read(cookie);
    match loaded
    case None =>
      s := new Session(freshId, map[], now);
      f := new F.Flash();
    case Some(saved) =>
      s := new Session(saved.id, saved.data, saved.createdAt);
      f := F.LoadFlashFromSession(s);
  }

  method SaveToCookie(s: Session, f: F.Flash?, write: StoreWrite) returns (r: CookieResult)
    modifies s
    ensures var before := if f == null then old(s.View())
                          else Mutate(old(s.View()), F.FlashMutation(old(f.View()).Active()));
            if !before.dirty then r == Unchanged && s.View() == before
            else match write(Saved(s.id, before.data, s.createdAt))
                 case None => r == SaveFailed && s.View() == before
                 case Some(t) => r == Cookie(t) && s.View() == before.(dirty := false)
  {
    if f != null {
      F.SaveFlashToSession(s, f);
    }
    if !s.dirty {
      return Unchanged;
    }
    var token := s.Save(write, []);
    r := if token.Some? then Cookie(token.value) else SaveFailed;
  }

  /**
    The before-commit hook. Saving the flash always counts as a mutation, so the store is
    written on every request that has a flash, whatever the handler did; only the strict
    mode reports a failed write.
   */
  method PersistHook(s: Session, f: F.Flash?, write: StoreWrite, strict: bool)
    returns (failed: bool, cookie: Option<string>)
    modifies s
    ensures var before := if f == null then old(s.View())
                          else Mutate(old(s.View()), F.FlashMutation(old(f.View()).Active()));
            var written := write(Saved(s.id, before.data, s.createdAt));
            && (f != null ==> before.dirty)
            && cookie == (if before.dirty then written else None)
            && failed == (before.dirty && written.None? && strict)
            && s.View() == (if before.dirty && written.Some? then before.(dirty := false) else before)
  {
    if f != null {
      F.SaveFlashToSession(s, f);
    }
    if !s.dirty {
      return false, None;
    }
    var r := SaveToCookie(s, null, write);
    match r
    case SaveFailed => return strict, None;
    case Cookie(t) => return false, Some(t);
    case Unchanged => return false, None;
  }

  // ----- A client's history of requests -----

  /** A server-side store gives values back as they were; the cookie store goes through JSON. */
  datatype StoreKind = ServerSide | JsonCookie

  function JsonValue(v: Value): Value {
    match v
    case TextMap(m) => AnyMap(map k | k in m :: Text(m[k]))
    case _ => v
  }

  function Reload(kind: StoreKind, d: Data): Data {
    match kind
    case ServerSide => d
    case JsonCookie => map k | k in d :: JsonValue(d[k])
  }

  /** What a handler does with the session and the flash of its request. */
  datatype Act = FlashOp(op: F.Op) | SessionOp(m: Mutation)

  /**
    One request: whether the store accepts the returned cookie, what the handler does before
    the commit hook, whether that hook runs and its save succeeds, and what is done after it.
   */
  datatype Request = Request(loads: bool, before: seq<Act>, saves: bool, after: seq<Act>)

  function Handle(s: State, b: F.Box, acts: seq<Act>): (State, F.Box, seq<F.Output>)
    decreases |acts|
  {
    if acts == [] then (s, b, [])
    else match acts[0]
         case SessionOp(m) => Handle(Mutate(s, m), b, acts[1..])
         case FlashOp(op) =>
           var (b1, out) := F.Do(b, op);
           var (s2, b2, outs) := Handle(s, b1, acts[1..]);
           (s2, b2, [out] + outs)
  }

  /** `held` is the session data behind the last cookie the client was given, if any. */
  function Serve(kind: StoreKind, held: Option<Data>, r: Request): (Option<Data>, seq<F.Output>) {
    var data := if held.Some? && r.loads then Reload(kind, held.value) else map[];
    var (s1, b1, outs1) := Handle(State(data, false, 0), F.Box(F.FlashOf(data), map[]), r.before);
    var s2 := Mutate(s1, F.FlashMutation(b1.Active()));
    var (_, _, outs2) := Handle(s2, b1, r.after);
    (if s2.dirty && r.saves then Some(s2.data) else held, outs1 + outs2)
  }

  method DoOp(f: F.Flash, op: F.Op) returns (out: F.Output)
    modifies f
    ensures (f.View(), out) == F.Do(old(f.View()), op)
  {
    match op
    case Add(k, v) =>
      f.Add(k, v);
      out := F.Nothing;
    case Get(k) =>
      var v := f.Get(k);
      out := F.One(v);
    case Peek(k) =>
      var v := f.Peek(k);
      out := F.One(v);
    case GetAll =>
      var values := f.GetAll();
      out := F.All(values);
    case Has(k) =>
      var present := f.Has(k);
      out := F.Flag(present);
    case Clear =>
      f.Clear();
      out := F.Nothing;
  }

  /** A handler at work on its request's session and flash. */
  method DoAll(s: Session, f: F.Flash, acts: seq<Act>) returns (outs: seq<F.Output>)
    modifies s, f
    ensures (s.View(), f.View(), outs) == Handle(old(s.View()), old(f.View()), acts)
    decreases |acts|
  {
    if acts == [] {
      return [];
    }
    match acts[0]
    case SessionOp(m) =>
      s.Apply(m);
      outs := DoAll(s, f, acts[1..]);
    case FlashOp(op) =>
      var out := DoOp(f, op);
      outs := DoAll(s, f, acts[1..]);
      outs := [out] + outs;
  }

  /** The session does not matter to what the flash answers. */
  lemma {:induction false} OutputsIgnoreSession(s: State, t: State, b: F.Box, acts: seq<Act>)
    ensures Handle(s, b, acts).2 == Handle(t, b, acts).2
    decreases |acts|
  {
    if acts != [] {
      match acts[0]
      case SessionOp(m) => OutputsIgnoreSession(Mutate(s, m), Mutate(t, m), b, acts[1..]);
      case FlashOp(op) => OutputsIgnoreSession(s, t, F.Do(b, op).0, acts[1..]);
    }
  }

  lemma ServeSteps(kind: StoreKind, held: Option<Data>, r: Request, s1: State, b1: F.Box, early: seq<F.Output>,
                   saved: State, late: seq<F.Output>)
    requires var data := if held.Some? && r.loads then Reload(kind, held.value) else map[];
             Handle(State(data, false, 0), F.Box(F.FlashOf(data), map[]), r.before) == (s1, b1, early)
    requires saved.data == Mutate(s1, F.FlashMutation(b1.Active())).data
    requires Handle(saved, b1, r.after).2 == late
    ensures Serve(kind, held, r) == (if r.saves then Some(saved.data) else held, early + late)
  {
    OutputsIgnoreSession(saved, Mutate(s1, F.FlashMutation(b1.Active())), b1, r.after);
  }

  /**
    One request through the middleware: load from the cookie, the handler, the hook, and what
    comes after it. `cookie` stands for the held data, and the store answers as the request says.
   */
  method ServeRequest(kind: StoreKind, held: Option<Data>, r: Request, cookie: string, id: string, now: int,
                      strict: bool)
    returns (next: Option<Data>, outs: seq<F.Output>, failed: bool)
    requires held.Some? ==> cookie != ""
    ensures (next, outs) == Serve(kind, held, r)
    ensures failed <==> !r.saves && strict
  {
    var read: StoreRead := _ =>
      if held.Some? && r.loads then Some(Saved(id, Reload(kind, held.value), now)) else None;
    var write: StoreWrite := _ => if r.saves then Some("token") else None;
    var s, f := LoadFromCookie(cookie, read, id, now);
    var early := DoAll(s, f, r.before);
    ghost var s1, b1 := s.View(), f.View();
    var token: Option<string>;
    failed, token := PersistHook(s, f, write, strict);
    next := if token.Some? then Some(s.data) else held;
    ghost var saved := s.View();
    var late := DoAll(s, f, r.after);
    ServeSteps(kind, held, r, s1, b1, early, saved, late);
    outs := early + late;
  }

  function ServeAll(kind: StoreKind, held: Option<Data>, rs: seq<Request>): (Option<Data>, seq<F.Output>)
    decreases |rs|
  {
    if rs == [] then (held, [])
    else
      var (h1, o1) := Serve(kind, held, rs[0]);
      var (h2, o2) := ServeAll(kind, h1, rs[1..]);
      (h2, o1 + o2)
  }

  // ----- The reference: a mailbox without entries, read marks, sessions or stores -----

  type Mailbox = map<string, string>

  function MailDo(p: Mailbox, op: F.Op): (Mailbox, F.Output) {
    match op
    case Add(k, v) => (p[k := v], F.Nothing)
    case Get(k) => (p - {k}, F.One(if k in p then p[k] else ""))
    case Peek(k) => (p, F.One(if k in p then p[k] else ""))
    case GetAll => (map[], F.All(p))
    case Has(k) => (p, F.Flag(k in p))
    case Clear => (map[], F.Nothing)
  }

  function MailRun(p: Mailbox, ops: seq<F.Op>): (Mailbox, seq<F.Output>)
    decreases |ops|
  {
    if ops == [] then (p, [])
    else
      var (p1, out) := MailDo(p, ops[0]);
      var (p2, outs) := MailRun(p1, ops[1..]);
      (p2, [out] + outs)
  }

  function FlashOps(acts: seq<Act>): seq<F.Op> {
    if acts == [] then []
    else if acts[0].FlashOp? then [acts[0].op] + FlashOps(acts[1..])
    else FlashOps(acts[1..])
  }

  /** A refused cookie empties the mailbox; a save that does not happen undoes the request. */
  function MailServe(p: Mailbox, r: Request): (Mailbox, seq<F.Output>) {
    var (p1, outs1) := MailRun(if r.loads then p else map[], FlashOps(r.before));
    var (_, outs2) := MailRun(p1, FlashOps(r.after));
    (if r.saves then p1 else p, outs1 + outs2)
  }

  function MailServeAll(p: Mailbox, rs: seq<Request>): (Mailbox, seq<F.Output>)
    decreases |rs|
  {
    if rs == [] then (p, [])
    else
      var (p1, o1) := MailServe(p, rs[0]);
      var (p2, o2) := MailServeAll(p1, rs[1..]);
      (p2, o1 + o2)
  }

  /** The mailbox a client's cookie stands for. */
  function MailOf(kind: StoreKind, held: Option<Data>): Mailbox {
    if held.None? then map[] else F.FlashOf(Reload(kind, held.value))
  }

  // ----- Refinement -----

  lemma DoRefinesMail(b: F.Box, op: F.Op)
    ensures var (b1, out) := F.Do(b, op);
            MailDo(b.Active(), op) == (b1.Active(), out)
  {
    var (b1, out) := F.Do(b, op);
    assert b1.Active() == MailDo(b.Active(), op).0;
  }

  lemma {:induction false} HandleRefinesMail(s: State, b: F.Box, acts: seq<Act>)
    ensures var (s1, b1, outs) := Handle(s, b, acts);
            MailRun(b.Active(), FlashOps(acts)) == (b1.Active(), outs)
    decreases |acts|
  {
    if acts != [] {
      match acts[0]
      case SessionOp(m) => HandleRefinesMail(Mutate(s, m), b, acts[1..]);
      case FlashOp(op) =>
        DoRefinesMail(b, op);
        var (b1, out) := F.Do(b, op);
        HandleRefinesMail(s, b1, acts[1..]);
        var ops := FlashOps(acts);
        assert ops[0] == op && ops[1..] == FlashOps(acts[1..]);
    }
  }

  /** Saving active entries and loading them back, in either store, gives exactly those entries. */
  lemma FlashRoundTrip(kind: StoreKind, s: State, active: Mailbox)
    ensures F.FlashOf(Reload(kind, Mutate(s, F.FlashMutation(active)).data)) == active
  {
    var d := Mutate(s, F.FlashMutation(active)).data;
    if |active| == 0 {
      assert F.FLASH_KEY !in Reload(kind, d);
    } else {
      assert d[F.FLASH_KEY] == TextMap(active);
      if kind == JsonCookie {
        var m := JsonValue(TextMap(active)).values;
        assert Reload(kind, d)[F.FLASH_KEY] == AnyMap(m);
        assert (map k | k in m && m[k].Text? :: m[k].text) == active;
      }
    }
  }

  lemma ServeRefinesMail(kind: StoreKind, held: Option<Data>, r: Request)
    ensures var (h1, outs) := Serve(kind, held, r);
            MailServe(MailOf(kind, held), r) == (MailOf(kind, h1), outs)
  {
    var data := if held.Some? && r.loads then Reload(kind, held.value) else map[];
    var s0, b0 := State(data, false, 0), F.Box(F.FlashOf(data), map[]);
    assert b0.Active() == if r.loads then MailOf(kind, held) else map[];
    HandleRefinesMail(s0, b0, r.before);
    var (s1, b1, _) := Handle(s0, b0, r.before);
    HandleRefinesMail(Mutate(s1, F.FlashMutation(b1.Active())), b1, r.after);
    FlashRoundTrip(kind, s1, b1.Active());
  }

  /**
    Main result. Over every history of requests and every store behaviour, the entries, read
    marks, session data and reloads of the real thing answer exactly as one plain mailbox.
   */
  lemma {:induction false} HistoryRefinesMail(kind: StoreKind, held: Option<Data>, rs: seq<Request>)
    ensures var (h, outs) := ServeAll(kind, held, rs);
            MailServeAll(MailOf(kind, held), rs) == (MailOf(kind, h), outs)
    decreases |rs|
  {
    if rs != [] {
      ServeRefinesMail(kind, held, rs[0]);
      HistoryRefinesMail(kind, Serve(kind, held, rs[0]).0, rs[1..]);
    }
  }

  // ----- Session data across requests -----

  function Mutations(acts: seq<Act>): seq<Mutation> {
    if acts == [] then []
    else if acts[0].SessionOp? then [acts[0].m] + Mutations(acts[1..])
    else Mutations(acts[1..])
  }

  lemma {:induction false} HandleMutates(s: State, b: F.Box, acts: seq<Act>)
    ensures Handle(s, b, acts).0 == MutateAll(s, Mutations(acts))
    decreases |acts|
  {
    if acts != [] {
      match acts[0]
      case SessionOp(m) =>
        assert Mutations(acts)[1..] == Mutations(acts[1..]);
        HandleMutates(Mutate(s, m), b, acts[1..]);
      case FlashOp(op) => HandleMutates(s, F.Do(b, op).0, acts[1..]);
    }
  }

  /** What a request finds in its session. */
  function Loaded(kind: StoreKind, held: Option<Data>, loads: bool): Data {
    if held.Some? && loads then Reload(kind, held.value) else map[]
  }

  /**
    Main result. A request that saves leaves the client, under every key of its own, with what
    the handler's last mutation before the hook put there, or with what it found; what comes
    after the hook does not count. A request that does not save leaves everything as it was.
   */
  lemma RequestKeepsData(kind: StoreKind, held: Option<Data>, r: Request, k: string, v: Value)
    requires k != F.FLASH_KEY
    ensures var next := Serve(kind, held, r).0;
            if !r.saves then next == held
            else next.Some? && (Lookup(next.value, k) == Some(v)
                                <==> HoldsAfter(Lookup(Loaded(kind, held, r.loads), k), Mutations(r.before), k, v))
  {
    var s0 := State(Loaded(kind, held, r.loads), false, 0);
    HandleMutates(s0, F.Box(F.FlashOf(s0.data), map[]), r.before);
    MutationsLeave(s0, Mutations(r.before), k, v);
  }

  /** All that handlers did to the session before their hooks. */
  function AllMutations(rs: seq<Request>): seq<Mutation> {
    if rs == [] then [] else Mutations(rs[0].before) + AllMutations(rs[1..])
  }

  predicate Kept(rs: seq<Request>) {
    forall r :: r in rs ==> r.loads && r.saves
  }

  /** A value as a store gives it back. */
  function GivenBack(kind: StoreKind, v: Value): Value {
    match kind
    case ServerSide => v
    case JsonCookie => JsonValue(v)
  }

  function GivenBackIf(kind: StoreKind, v: Option<Value>): Option<Value> {
    match v
    case None => None
    case Some(x) => Some(GivenBack(kind, x))
  }

  lemma ReloadAt(kind: StoreKind, d: Data, k: string)
    ensures Lookup(Reload(kind, d), k) == GivenBackIf(kind, Lookup(d, k))
    ensures GivenBackIf(kind, Lookup(Reload(kind, d), k)) == Lookup(Reload(kind, d), k)
  {
  }

  lemma {:induction false} SameUpToStore(kind: StoreKind, s: State, t: State, ms: seq<Mutation>, k: string)
    requires GivenBackIf(kind, Lookup(s.data, k)) == GivenBackIf(kind, Lookup(t.data, k))
    ensures GivenBackIf(kind, Lookup(MutateAll(s, ms).data, k)) == GivenBackIf(kind, Lookup(MutateAll(t, ms).data, k))
    decreases |ms|
  {
    if ms != [] {
      SameUpToStore(kind, Mutate(s, ms[0]), Mutate(t, ms[0]), ms[1..], k);
    }
  }

  lemma {:induction false} MutateAllSplit(s: State, a: seq<Mutation>, b: seq<Mutation>)
    ensures MutateAll(s, a + b) == MutateAll(MutateAll(s, a), b)
    decreases |a|
  {
    if a == [] {
      assert a + b == b;
    } else {
      assert (a + b)[0] == a[0] && (a + b)[1..] == a[1..] + b;
      MutateAllSplit(Mutate(s, a[0]), a[1..], b);
    }
  }

  lemma ServeMutates(kind: StoreKind, held: Option<Data>, r: Request, k: string)
    requires r.saves && k != F.FLASH_KEY
    ensures var next := Serve(kind, held, r).0;
            var s0 := State(Loaded(kind, held, r.loads), false, 0);
            next.Some? && Lookup(next.value, k) == Lookup(MutateAll(s0, Mutations(r.before)).data, k)
  {
    var s0 := State(Loaded(kind, held, r.loads), false, 0);
    HandleMutates(s0, F.Box(F.FlashOf(s0.data), map[]), r.before);
  }

  /** The requests' stores and reloads change nothing but the shape JSON gives a value. */
  lemma {:induction false} DataIsReplayed(kind: StoreKind, held: Option<Data>, rs: seq<Request>, t: State, k: string)
    requires Kept(rs) && k != F.FLASH_KEY
    requires Lookup(Loaded(kind, held, true), k) == GivenBackIf(kind, Lookup(t.data, k))
    ensures var h := ServeAll(kind, held, rs).0;
            Lookup(Loaded(kind, h, true), k) == GivenBackIf(kind, Lookup(MutateAll(t, AllMutations(rs)).data, k))
    decreases |rs|
  {
    if rs != [] {
      assert rs[0] in rs;
      var ms := Mutations(rs[0].before);
      var s0 := State(Loaded(kind, held, true), false, 0);
      var next := Serve(kind, held, rs[0]).0;
      ServeMutates(kind, held, rs[0], k);
      ReloadAt(kind, next.value, k);
      Idempotent(kind, Lookup(t.data, k));
      SameUpToStore(kind, s0, t, ms, k);
      DataIsReplayed(kind, next, rs[1..], MutateAll(t, ms), k);
      MutateAllSplit(t, ms, AllMutations(rs[1..]));
    }
  }

  lemma Idempotent(kind: StoreKind, v: Option<Value>)
    ensures GivenBackIf(kind, GivenBackIf(kind, v)) == GivenBackIf(kind, v)
  {
  }

  /**
    Main result. After any history of requests that load and save, and under every key but the
    flash's, the next request finds exactly what the last mutation of that key left, in the shape
    the store gives it back.
   */
  lemma DataAcrossRequests(kind: StoreKind, rs: seq<Request>, k: string, w: Value)
    requires Kept(rs) && k != F.FLASH_KEY
    ensures Lookup(Loaded(kind, ServeAll(kind, None, rs).0, true), k) == Some(w)
            <==> exists v :: HoldsAfter(None, AllMutations(rs), k, v) && GivenBack(kind, v) == w
  {
    var t := State(map[], false, 0);
    DataIsReplayed(kind, None, rs, t, k);
    var final := Lookup(MutateAll(t, AllMutations(rs)).data, k);
    forall v
      ensures final == Some(v) <==> HoldsAfter(None, AllMutations(rs), k, v)
    {
      MutationsLeave(t, AllMutations(rs), k, v);
    }
    if final.Some? && GivenBack(kind, final.value) == w {
      assert HoldsAfter(None, AllMutations(rs), k, final.value);
    }
  }

  // ----- One-shot delivery -----

  /** Reads, drops or replaces the message under k. */
  predicate Touches(op: F.Op, k: string) {
    op.GetAll? || op.Clear? || (op.Get? && op.key == k) || (op.Add? && op.key == k)
  }

  /** The message v was added under k and nothing touched it since. */
  ghost predicate Unread(ops: seq<F.Op>, k: string, v: string) {
    exists i :: 0 <= i < |ops| && ops[i] == F.Add(k, v)
                && forall j :: i < j < |ops| ==> !Touches(ops[j], k)
  }

  lemma {:induction false} MailRunSnoc(p: Mailbox, ops: seq<F.Op>, op: F.Op)
    ensures MailRun(p, ops + [op]).0 == MailDo(MailRun(p, ops).0, op).0
    decreases |ops|
  {
    if ops == [] {
      assert MailRun(MailDo(p, op).0, []) == (MailDo(p, op).0, []);
      assert (ops + [op])[1..] == [];
    } else {
      assert (ops + [op])[1..] == ops[1..] + [op];
      MailRunSnoc(MailDo(p, ops[0]).0, ops[1..], op);
    }
  }

  lemma UnreadSnoc(ops: seq<F.Op>, op: F.Op, k: string, v: string)
    ensures Unread(ops + [op], k, v)
            <==> op == F.Add(k, v) || (!Touches(op, k) && Unread(ops, k, v))
  {
    var all := ops + [op];
    if Unread(all, k, v) {
      var i :| 0 <= i < |all| && all[i] == F.Add(k, v)
               && forall j :: i < j < |all| ==> !Touches(all[j], k);
      if i < |ops| {
        assert all[|ops|] == op;
        assert ops[i] == F.Add(k, v);
        forall j | i < j < |ops| ensures !Touches(ops[j], k) { assert all[j] == ops[j]; }
      }
    }
    if op == F.Add(k, v) {
      assert all[|ops|] == F.Add(k, v);
    } else if !Touches(op, k) && Unread(ops, k, v) {
      var i :| 0 <= i < |ops| && ops[i] == F.Add(k, v)
               && forall j :: i < j < |ops| ==> !Touches(ops[j], k);
      assert all[i] == F.Add(k, v);
    }
  }

  lemma {:induction false} MailHoldsUnread(ops: seq<F.Op>, k: string, v: string)
    ensures var p := MailRun(map[], ops).0;
            (k in p && p[k] == v) <==> Unread(ops, k, v)
    decreases |ops|
  {
    if ops != [] {
      var rest, op := ops[..|ops| - 1], ops[|ops| - 1];
      assert ops == rest + [op];
      MailHoldsUnread(rest, k, v);
      MailRunSnoc(map[], rest, op);
      UnreadSnoc(rest, op, k, v);
    }
  }

  lemma {:induction false} MailRunSplit(p: Mailbox, a: seq<F.Op>, b: seq<F.Op>)
    ensures MailRun(p, a + b).0 == MailRun(MailRun(p, a).0, b).0
    decreases |a|
  {
    if a == [] {
      assert a + b == b;
    } else {
      assert (a + b)[0] == a[0] && (a + b)[1..] == a[1..] + b;
      MailRunSplit(MailDo(p, a[0]).0, a[1..], b);
    }
  }

  // ----- What may be done to the flash after the commit hook -----

  predicate ReadOnly(ops: seq<F.Op>) {
    forall op :: op in ops ==> op.Peek? || op.Has?
  }

  lemma {:induction false} ReadOnlyKeepsMail(p: Mailbox, ops: seq<F.Op>)
    requires ReadOnly(ops)
    ensures MailRun(p, ops).0 == p
    decreases |ops|
  {
    if ops != [] {
      assert ops[0] in ops && forall op :: op in ops[1..] ==> op in ops;
      ReadOnlyKeepsMail(p, ops[1..]);
    }
  }

  /** A mailbox that the operation leaves different, whatever mailbox it is run on. */
  lemma ChangedMail(op: F.Op) returns (p: Mailbox)
    requires !op.Peek? && !op.Has?
    ensures forall q :: MailDo(q, op).0 != p
  {
    match op
    case Add(k, v) =>
      p := map[k := v + "x"];
      forall q
        ensures MailDo(q, op).0 != p
      {
        assert MailDo(q, op).0[k] == v && |p[k]| == |v| + 1;
      }
    case Get(k) =>
      p := map[k := ""];
      assert k in p && forall q :: k !in MailDo(q, op).0;
    case GetAll =>
      p := map["k" := ""];
      assert "k" in p;
    case Clear =>
      p := map["k" := ""];
      assert "k" in p;
  }

  lemma {:induction false} WritesChangeMail(ops: seq<F.Op>) returns (p: Mailbox)
    requires !ReadOnly(ops)
    ensures MailRun(p, ops).0 != p
    decreases |ops|
  {
    var rest, op := ops[..|ops| - 1], ops[|ops| - 1];
    assert ops == rest + [op];
    if op.Peek? || op.Has? {
      p := WritesChangeMail(rest);
      MailRunSnoc(p, rest, op);
    } else {
      p := ChangedMail(op);
      MailRunSnoc(p, rest, op);
    }
  }

  /** The session data behind a cookie that holds exactly these messages. */
  function HeldMail(p: Mailbox): Data {
    Mutate(State(map[], false, 0), F.FlashMutation(p)).data
  }

  /** Does the cookie end up as if everything the request did had been done before its hook? */
  predicate KeepsUp(kind: StoreKind, held: Option<Data>, before: seq<Act>, after: seq<Act>) {
    MailOf(kind, Serve(kind, held, Request(true, before, true, after)).0)
    == MailRun(MailOf(kind, held), FlashOps(before) + FlashOps(after)).0
  }

  lemma MailAfterHook(kind: StoreKind, held: Option<Data>, before: seq<Act>, after: seq<Act>)
    ensures var p := MailRun(MailOf(kind, held), FlashOps(before)).0;
            KeepsUp(kind, held, before, after) <==> p == MailRun(p, FlashOps(after)).0
  {
    ServeRefinesMail(kind, held, Request(true, before, true, after));
    MailRunSplit(MailOf(kind, held), FlashOps(before), FlashOps(after));
  }

  /**
    Main result. What handlers do to the flash after the commit hook is never lost, whatever the
    client holds and whatever was done before, if and only if it is nothing but Peek and Has.
   */
  lemma LateOpsAreKeptExactly(kind: StoreKind, after: seq<Act>)
    ensures (forall held: Option<Data>, before: seq<Act> :: KeepsUp(kind, held, before, after))
            <==> ReadOnly(FlashOps(after))
  {
    if ReadOnly(FlashOps(after)) {
      forall held: Option<Data>, before: seq<Act>
        ensures KeepsUp(kind, held, before, after)
      {
        MailAfterHook(kind, held, before, after);
        ReadOnlyKeepsMail(MailRun(MailOf(kind, held), FlashOps(before)).0, FlashOps(after));
      }
    } else {
      var p := WritesChangeMail(FlashOps(after));
      var held := Some(HeldMail(p));
      FlashRoundTrip(kind, State(map[], false, 0), p);
      assert MailOf(kind, held) == p;
      MailAfterHook(kind, held, [], after);
      assert MailRun(p, FlashOps([])).0 == p;
      assert !KeepsUp(kind, held, [], after);
    }
  }

  /** Every cookie loads, every hook saves, and after the hook the flash is only looked at. */
  predicate WellKept(rs: seq<Request>) {
    forall r :: r in rs ==> r.loads && r.saves && ReadOnly(FlashOps(r.after))
  }

  /** Everything done to the flash in these requests, early or late. */
  function AllOps(rs: seq<Request>): seq<F.Op> {
    if rs == [] then [] else (FlashOps(rs[0].before) + FlashOps(rs[0].after)) + AllOps(rs[1..])
  }

  lemma {:induction false} MailServeAllFlat(p: Mailbox, rs: seq<Request>)
    requires WellKept(rs)
    ensures MailServeAll(p, rs).0 == MailRun(p, AllOps(rs)).0
    decreases |rs|
  {
    if rs != [] {
      assert rs[0] in rs;
      var before, after := FlashOps(rs[0].before), FlashOps(rs[0].after);
      var p1 := MailServe(p, rs[0]).0;
      MailServeAllFlat(p1, rs[1..]);
      ReadOnlyKeepsMail(p1, after);
      MailRunSplit(p, before, after);
      MailRunSplit(p, before + after, AllOps(rs[1..]));
    }
  }

  lemma MailRunOne(p: Mailbox, op: F.Op)
    ensures MailRun(p, [op]) == (MailDo(p, op).0, [MailDo(p, op).1])
  {
    assert [op][1..] == [];
    assert [MailDo(p, op).1] + [] == [MailDo(p, op).1];
  }

  lemma OneFlashOp(op: F.Op)
    ensures FlashOps([FlashOp(op)]) == [op]
  {
    assert [FlashOp(op)][1..] == [];
  }

  /** A request whose handler does one flash operation before its hook. */
  lemma OneOpRequest(kind: StoreKind, held: Option<Data>, op: F.Op, after: seq<Act>)
    ensures var (h, outs) := Serve(kind, held, Request(true, [FlashOp(op)], true, after));
            var (p, out) := MailDo(MailOf(kind, held), op);
            MailOf(kind, h) == p && outs == [out] + MailRun(p, FlashOps(after)).1
  {
    ServeRefinesMail(kind, held, Request(true, [FlashOp(op)], true, after));
    OneFlashOp(op);
    MailRunOne(MailOf(kind, held), op);
  }

  /**
    Main result. After any well-kept history that starts without a cookie, the client's cookie
    holds v under k if and only if v was added under k and never read, cleared or replaced
    since, however many saves and loads lie between.
   */
  lemma OneShotAcrossRequests(kind: StoreKind, rs: seq<Request>, k: string, v: string)
    requires WellKept(rs)
    ensures var p := MailOf(kind, ServeAll(kind, None, rs).0);
            Unread(AllOps(rs), k, v) <==> k in p && p[k] == v
  {
    HistoryRefinesMail(kind, None, rs);
    MailServeAllFlat(map[], rs);
    MailHoldsUnread(AllOps(rs), k, v);
  }

  /** So the next request's Get delivers an unread message, and never a read or cleared one. */
  lemma NextGetDeliversOnlyUnread(kind: StoreKind, rs: seq<Request>, k: string, v: string)
    requires WellKept(rs)
    ensures var outs := Serve(kind, ServeAll(kind, None, rs).0, Request(true, [FlashOp(F.Get(k))], true, [])).1;
            && (Unread(AllOps(rs), k, v) ==> outs == [F.One(v)])
            && ((forall w :: !Unread(AllOps(rs), k, w)) ==> outs == [F.One("")])
  {
    var held := ServeAll(kind, None, rs).0;
    OneOpRequest(kind, held, F.Get(k), []);
    OneShotAcrossRequests(kind, rs, k, v);
    if k in MailOf(kind, held) {
      OneShotAcrossRequests(kind, rs, k, MailOf(kind, held)[k]);
    }
  }

  lemma ServeTwo(kind: StoreKind, a: Request, b: Request, held: Option<Data>,
                 first: seq<F.Output>, second: seq<F.Output>)
    requires Serve(kind, None, a) == (held, first) && Serve(kind, held, b).1 == second
    ensures ServeAll(kind, None, [a, b]).1 == first + second
  {
    assert [a, b][1..] == [b] && [b][1..] == [];
    assert ServeAll(kind, held, [b]).1 == second + [];
  }

  lemma AddThenLateGet(kind: StoreKind, k: string, v: string, held: Option<Data>, outs: seq<F.Output>)
    requires (held, outs) == Serve(kind, None, Request(true, [FlashOp(F.Add(k, v))], true, [FlashOp(F.Get(k))]))
    ensures MailOf(kind, held) == map[k := v] && outs == [F.Nothing, F.One(v)]
  {
    OneOpRequest(kind, None, F.Add(k, v), [FlashOp(F.Get(k))]);
    OneFlashOp(F.Get(k));
    MailRunOne(map[k := v], F.Get(k));
  }

  /** A message read only after the commit hook is delivered again by the next request. */
  lemma ReadAfterCommitIsDeliveredTwice(kind: StoreKind, k: string, v: string)
    ensures var late := Request(true, [FlashOp(F.Add(k, v))], true, [FlashOp(F.Get(k))]);
            var again := Request(true, [FlashOp(F.Get(k))], true, []);
            ServeAll(kind, None, [late, again]).1 == [F.Nothing, F.One(v), F.One(v)]
  {
    var late := Request(true, [FlashOp(F.Add(k, v))], true, [FlashOp(F.Get(k))]);
    var again := Request(true, [FlashOp(F.Get(k))], true, []);
    var (held, first) := Serve(kind, None, late);
    AddThenLateGet(kind, k, v, held, first);
    OneOpRequest(kind, held, F.Get(k), []);
    var second := Serve(kind, held, again).1;
    assert second == [F.One(v)];
    ServeTwo(kind, late, again, held, first, second);
  }
}
