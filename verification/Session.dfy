/**
  Sessions (v2/session/session.go): a key-value map with a dirty flag and a 64-bit
  revision counter that lets Save run its store write outside the lock.
 */
module Session {
  import opened Wrappers

  /** The stored values that matter here: text, the two shapes a flash map takes, and the rest. */
  datatype Value =
    | Text(text: string)
    | TextMap(texts: map<string, string>)
    | AnyMap(values: map<string, Value>)
    | Other(tag: int)

  type Data = map<string, Value>

  /** The revision is a uint64: it wraps around. */
  const REVISIONS: nat := 0x1_0000_0000_0000_0000

  datatype State = State(data: Data, dirty: bool, revision: nat)

  datatype Mutation = SetKey(key: string, value: Value) | DeleteKey(key: string) | ClearAll

  function MutateData(d: Data, m: Mutation): Data {
    match m
    case SetKey(k, v) => d[k := v]
    case DeleteKey(k) => d - {k}
    case ClearAll => map[]
  }

  function Mutate(s: State, m: Mutation): State {
    State(MutateData(s.data, m), true, (s.revision + 1) % REVISIONS)
  }

  /** The last critical section of Save: the flag is cleared only if the revision did not move. */
  function EndSave(s: State, taken: State): State {
    if s.revision == taken.revision then s.(dirty := false) else s
  }

  function MutateAll(s: State, ms: seq<Mutation>): State
    decreases |ms|
  {
    if ms == [] then s else MutateAll(Mutate(s, ms[0]), ms[1..])
  }

  // ----- What a history of mutations leaves under a key -----

  function Lookup(d: Data, k: string): Option<Value> {
    if k in d then Some(d[k]) else None
  }

  predicate TouchesKey(m: Mutation, k: string) {
    m.ClearAll? || m.key == k
  }

  predicate Untouched(ms: seq<Mutation>, k: string) {
    forall i :: 0 <= i < |ms| ==> !TouchesKey(ms[i], k)
  }

  /** The last mutation to touch k is the i-th, and sets it to v. */
  predicate SetLastAt(ms: seq<Mutation>, i: int, k: string, v: Value) {
    0 <= i < |ms| && ms[i] == SetKey(k, v) && Untouched(ms[i + 1..], k)
  }

  /** The last mutation to touch k set it to v, or none touched it and it held v before. */
  ghost predicate HoldsAfter(before: Option<Value>, ms: seq<Mutation>, k: string, v: Value) {
    (before == Some(v) && Untouched(ms, k)) || exists i :: SetLastAt(ms, i, k, v)
  }

  lemma UntouchedCons(m: Mutation, rest: seq<Mutation>, k: string)
    ensures Untouched([m] + rest, k) <==> !TouchesKey(m, k) && Untouched(rest, k)
  {
    var all := [m] + rest;
    assert all[0] == m && forall i :: 0 <= i < |rest| ==> all[i + 1] == rest[i];
    if Untouched(all, k) {
      forall i | 0 <= i < |rest|
        ensures !TouchesKey(rest[i], k)
      {
        assert all[i + 1] == rest[i];
      }
    }
  }

  lemma SetLastCons(m: Mutation, rest: seq<Mutation>, i: int, k: string, v: Value)
    ensures SetLastAt([m] + rest, i + 1, k, v)
            <==> (i >= 0 && SetLastAt(rest, i, k, v)) || (i == -1 && m == SetKey(k, v) && Untouched(rest, k))
  {
    var all := [m] + rest;
    if 0 <= i < |rest| {
      assert all[i + 1] == rest[i] && all[i + 2..] == rest[i + 1..];
    }
    assert all[1..] == rest;
  }

  lemma HoldsAfterFirst(before: Option<Value>, m: Mutation, rest: seq<Mutation>, k: string, v: Value)
    ensures HoldsAfter(before, [m] + rest, k, v)
            <==> HoldsAfter(if !TouchesKey(m, k) then before else if m.SetKey? then Some(m.value) else None, rest, k, v)
  {
    UntouchedCons(m, rest, k);
    if i :| SetLastAt([m] + rest, i, k, v) {
      SetLastCons(m, rest, i - 1, k, v);
    }
    if i :| SetLastAt(rest, i, k, v) {
      SetLastCons(m, rest, i, k, v);
    }
    SetLastCons(m, rest, -1, k, v);
  }

  /** After any list of mutations. */
  lemma {:induction false} MutationsLeave(s: State, ms: seq<Mutation>, k: string, v: Value)
    ensures Lookup(MutateAll(s, ms).data, k) == Some(v) <==> HoldsAfter(Lookup(s.data, k), ms, k, v)
    decreases |ms|
  {
    if ms != [] {
      assert ms == [ms[0]] + ms[1..];
      HoldsAfterFirst(Lookup(s.data, k), ms[0], ms[1..], k, v);
      MutationsLeave(Mutate(s, ms[0]), ms[1..], k, v);
    }
  }

  /** A detached copy of a session, as handed to the store. */
  datatype Saved = Saved(id: string, data: Data, createdAt: int)

  /** A store's answer to one save: a token, or None for an error. */
  type StoreWrite = Saved -> Option<string>

  class Session {
    const id: string
    const createdAt: int
    var data: Data
    var dirty: bool
    var revision: nat

    ghost function View(): State
      reads this
    {
      State(data, dirty, revision)
    }

    constructor (id: string, data: Data, createdAt: int)
      ensures View() == State(data, false, 0)
      ensures this.id == id && this.createdAt == createdAt
    {
      this.id, this.createdAt := id, createdAt;
      this.data, dirty, revision := data, false, 0;
    }

    method Set(key: string, value: Value)
      modifies this
      ensures View() == Mutate(old(View()), SetKey(key, value))
      ensures key in data && data[key] == value && data.Keys == old(data).Keys + {key}
      ensures forall k :: k in old(data) && k != key ==> data[k] == old(data)[k]
    {
      data := data[key := value];
      dirty := true;
      revision := (revision + 1) % REVISIONS;
    }

    method Delete(key: string)
      modifies this
      ensures View() == Mutate(old(View()), DeleteKey(key))
      ensures data.Keys == old(data).Keys - {key}
      ensures forall k :: k in old(data) && k != key ==> data[k] == old(data)[k]
    {
      data := data - {key};
      dirty := true;
      revision := (revision + 1) % REVISIONS;
    }

    method Clear()
      modifies this
      ensures View() == Mutate(old(View()), ClearAll)
      ensures forall k :: k !in data
    {
      data := map[];
      dirty := true;
      revision := (revision + 1) % REVISIONS;
    }

    method Apply(m: Mutation)
      modifies this
      ensures View() == Mutate(old(View()), m)
    {
      match m
      case SetKey(k, v) => Set(k, v);
      case DeleteKey(k) => Delete(k);
      case ClearAll => Clear();
    }

    /**
      Save, with the mutations that other goroutines land between its two critical
      sections as an argument. The store sees only the snapshot.
     */
    method Save(write: StoreWrite, meanwhile: seq<Mutation>) returns (token: Option<string>)
      modifies this
      ensures token == write(Saved(id, old(data), createdAt))
      ensures token.None? ==> View() == MutateAll(old(View()), meanwhile)
      ensures token.Some? ==> View() == EndSave(MutateAll(old(View()), meanwhile), old(View()))
    {
      var snapshot, taken := data, revision;
      token := write(Saved(id, snapshot, createdAt));
      var rest := meanwhile;
      while rest != []
        invariant MutateAll(View(), rest) == MutateAll(old(View()), meanwhile)
        decreases |rest|
      {
        Apply(rest[0]);
        rest := rest[1..];
      }
      if token.Some? && revision == taken {
        dirty := false;
      }
    }
  }

  // ----- Concurrent saves: a state machine over every interleaving -----

  /**
    A Save in flight: the state it copied, how many mutations had happened by then, and
    whether the store has taken the copy.
   */
  datatype Pending = Pending(taken: State, at: nat, accepted: bool)

  /**
    A shared session, the saves in flight, and three history variables: the data it was
    created or loaded with, the snapshots stores have accepted, and the mutation count.
   */
  datatype System = System(session: State, saves: map<nat, Pending>,
                           origin: Data, accepted: set<Data>, mutations: nat)

  datatype Event =
    | Change(m: Mutation)
    | Snapshot(id: nat)
    | StoreAccepts(id: nat)
    | StoreRejects(id: nat)
    | Complete(id: nat)

  function Step(s: System, e: Event): System {
    match e
    case Change(m) =>
      s.(session := Mutate(s.session, m), mutations := s.mutations + 1)
    case Snapshot(id) =>
      if id in s.saves then s
      else s.(saves := s.saves[id := Pending(s.session, s.mutations, false)])
    case StoreAccepts(id) =>
      if id in s.saves
      then s.(saves := s.saves[id := s.saves[id].(accepted := true)],
              accepted := s.accepted + {s.saves[id].taken.data})
      else s
    case StoreRejects(id) =>
      if id in s.saves && !s.saves[id].accepted then s.(saves := s.saves - {id}) else s
    case Complete(id) =>
      if id in s.saves && s.saves[id].accepted
      then s.(session := EndSave(s.session, s.saves[id].taken), saves := s.saves - {id})
      else s
  }

  function Run(s: System, es: seq<Event>): System
    decreases |es|
  {
    if es == [] then s else Run(Step(s, es[0]), es[1..])
  }

  /** A session just created or loaded. */
  function Start(d: Data): System {
    System(State(d, false, 0), map[], d, {}, 0)
  }

  function Changes(es: seq<Event>): nat {
    if es == [] then 0 else (if es[0].Change? then 1 else 0) + Changes(es[1..])
  }

  /** What a false dirty flag promises. */
  predicate CleanMeansSaved(s: System) {
    !s.session.dirty ==> s.session.data == s.origin || s.session.data in s.accepted
  }

  predicate PendingOk(s: System, p: Pending) {
    && p.at <= s.mutations
    && s.session.revision == (p.taken.revision + (s.mutations - p.at)) % REVISIONS
    && p.taken.revision < REVISIONS
    && (p.at == s.mutations ==> p.taken.data == s.session.data)
    && (p.accepted ==> p.taken.data in s.accepted)
  }

  /** Every pending save knows, modulo 2^64, how many mutations came after its snapshot. */
  ghost predicate Counts(s: System) {
    && s.session.revision < REVISIONS
    && forall id :: id in s.saves ==> PendingOk(s, s.saves[id])
  }

  ghost predicate Inv(s: System) {
    Counts(s) && CleanMeansSaved(s)
  }

  lemma ModularStep(a: nat, k: nat)
    ensures (((a + k) % REVISIONS) + 1) % REVISIONS == (a + k + 1) % REVISIONS
  {
  }

  lemma ModularReturn(a: nat, k: nat)
    requires a < REVISIONS
    ensures (a + k) % REVISIONS == a <==> k % REVISIONS == 0
  {
    var q := (a + k) / REVISIONS;
    assert a + k == q * REVISIONS + (a + k) % REVISIONS;
    if k % REVISIONS == 0 {
      assert a + k == (k / REVISIONS) * REVISIONS + a;
    }
  }

  /**
    Exactly when a finishing Save clears the flag: when the number of mutations since its
    snapshot is a multiple of 2^64. So one to 2^64 - 1 later mutations are never marked clean.
   */
  lemma CompleteClearsExactly(s: System, id: nat)
    requires id in s.saves && PendingOk(s, s.saves[id]) && s.saves[id].accepted
    ensures var since := s.mutations - s.saves[id].at;
            var after := Step(s, Complete(id)).session;
            && after.dirty == (s.session.dirty && since % REVISIONS != 0)
            && after.data == s.session.data
            && (since == 0 ==> after.data == s.saves[id].taken.data)
  {
    var p := s.saves[id];
    ModularReturn(p.taken.revision, s.mutations - p.at);
  }

  lemma ChangeKeepsPending(s: System, m: Mutation, p: Pending)
    requires PendingOk(s, p)
    ensures PendingOk(Step(s, Change(m)), p)
  {
    ModularStep(p.taken.revision, s.mutations - p.at);
  }

  lemma ChangeKeepsCounts(s: System, m: Mutation)
    requires Counts(s)
    ensures Counts(Step(s, Change(m)))
  {
    var t := Step(s, Change(m));
    forall id | id in t.saves
      ensures PendingOk(t, t.saves[id])
    {
      ChangeKeepsPending(s, m, s.saves[id]);
    }
  }

  lemma SnapshotKeepsCounts(s: System, id: nat)
    requires Counts(s)
    ensures Counts(Step(s, Snapshot(id)))
  {
    var t := Step(s, Snapshot(id));
    forall i | i in t.saves
      ensures PendingOk(t, t.saves[i])
    {
      assert i in s.saves ==> PendingOk(s, s.saves[i]);
    }
  }

  lemma AnswerKeepsCounts(s: System, e: Event)
    requires Counts(s) && (e.StoreAccepts? || e.StoreRejects? || e.Complete?)
    ensures Counts(Step(s, e))
  {
    var t := Step(s, e);
    forall i | i in t.saves
      ensures PendingOk(t, t.saves[i])
    {
      assert PendingOk(s, s.saves[i]);
    }
  }

  /** Without any bound on the mutations. */
  lemma StepKeepsCounts(s: System, e: Event)
    requires Counts(s)
    ensures Counts(Step(s, e))
  {
    match e
    case Change(m) => ChangeKeepsCounts(s, m);
    case Snapshot(id) => SnapshotKeepsCounts(s, id);
    case _ => AnswerKeepsCounts(s, e);
  }

  lemma {:induction false} RunKeepsCounts(s: System, es: seq<Event>)
    requires Counts(s)
    ensures Counts(Run(s, es))
    decreases |es|
  {
    if es != [] {
      StepKeepsCounts(s, es[0]);
      RunKeepsCounts(Step(s, es[0]), es[1..]);
    }
  }

  /** So in every run, however long, a finishing Save clears the flag exactly then. */
  lemma RunClearsExactly(d: Data, es: seq<Event>, id: nat)
    requires id in Run(Start(d), es).saves && Run(Start(d), es).saves[id].accepted
    ensures var s := Run(Start(d), es);
            Step(s, Complete(id)).session.dirty
            == (s.session.dirty && (s.mutations - s.saves[id].at) % REVISIONS != 0)
  {
    RunKeepsCounts(Start(d), es);
    CompleteClearsExactly(Run(Start(d), es), id);
  }

  lemma CompleteKeepsClean(s: System, id: nat)
    requires Inv(s) && id in s.saves && s.saves[id].accepted
    requires s.mutations < REVISIONS
    ensures CleanMeansSaved(Step(s, Complete(id)))
  {
    CompleteClearsExactly(s, id);
  }

  lemma StepKeepsInv(s: System, e: Event)
    requires Inv(s)
    requires s.mutations < REVISIONS
    ensures Inv(Step(s, e))
  {
    StepKeepsCounts(s, e);
    if e.Complete? && e.id in s.saves && s.saves[e.id].accepted {
      CompleteKeepsClean(s, e.id);
    }
  }

  lemma {:induction false} RunKeepsInv(s: System, es: seq<Event>)
    requires Inv(s)
    requires s.mutations + Changes(es) < REVISIONS
    ensures Inv(Run(s, es))
    decreases |es|
  {
    if es != [] {
      StepKeepsInv(s, es[0]);
      RunKeepsInv(Step(s, es[0]), es[1..]);
    }
  }

  // ----- The method Save is one of those interleavings -----

  function ChangesOf(ms: seq<Mutation>): seq<Event> {
    if ms == [] then [] else [Change(ms[0])] + ChangesOf(ms[1..])
  }

  lemma {:induction false} ChangesOfRuns(s: System, ms: seq<Mutation>)
    ensures Run(s, ChangesOf(ms)).session == MutateAll(s.session, ms)
    ensures Run(s, ChangesOf(ms)).saves == s.saves
    decreases |ms|
  {
    if ms != [] {
      assert ChangesOf(ms)[1..] == ChangesOf(ms[1..]);
      ChangesOfRuns(Step(s, Change(ms[0])), ms[1..]);
    }
  }

  /** An accepted Save overtaken by `meanwhile` leaves the session as this run of the machine does. */
  lemma SaveIsARun(s: System, id: nat, meanwhile: seq<Mutation>)
    requires id !in s.saves
    ensures Run(s, [Snapshot(id)] + ([StoreAccepts(id)] + (ChangesOf(meanwhile) + [Complete(id)]))).session
         == EndSave(MutateAll(s.session, meanwhile), s.session)
  {
    var s1 := Step(s, Snapshot(id));
    var s2 := Step(s1, StoreAccepts(id));
    RunSplit(s, [Snapshot(id)], [StoreAccepts(id)] + (ChangesOf(meanwhile) + [Complete(id)]));
    RunSplit(s1, [StoreAccepts(id)], ChangesOf(meanwhile) + [Complete(id)]);
    RunSplit(s2, ChangesOf(meanwhile), [Complete(id)]);
    ChangesOfRuns(s2, meanwhile);
    var s3 := Run(s2, ChangesOf(meanwhile));
    assert Run(s3, [Complete(id)]) == Step(s3, Complete(id));
  }

  // ----- Where the 64-bit counter stops protecting a session -----

  function SetMany(n: nat, v: Value): (es: seq<Event>)
    ensures Changes(es) == n
  {
    if n == 0 then [] else [Change(SetKey("k", v))] + SetMany(n - 1, v)
  }

  lemma {:induction false} ChangesSplit(a: seq<Event>, b: seq<Event>)
    ensures Changes(a + b) == Changes(a) + Changes(b)
  {
    if a == [] {
      assert a + b == b;
    } else {
      assert (a + b)[1..] == a[1..] + b;
      ChangesSplit(a[1..], b);
    }
  }

  lemma {:induction false} RunSplit(s: System, a: seq<Event>, b: seq<Event>)
    ensures Run(s, a + b) == Run(Run(s, a), b)
    decreases |a|
  {
    if a == [] {
      assert a + b == b;
    } else {
      assert (a + b)[0] == a[0] && (a + b)[1..] == a[1..] + b;
      RunSplit(Step(s, a[0]), a[1..], b);
    }
  }

  lemma ModularNext(a: nat, k: nat)
    ensures ((a + 1) % REVISIONS + k) % REVISIONS == (a + k + 1) % REVISIONS
  {
    var q := (a + 1) / REVISIONS;
    assert a + 1 == q * REVISIONS + (a + 1) % REVISIONS;
  }

  lemma {:induction false} SetManyRuns(s: System, n: nat, v: Value)
    requires s.session.revision < REVISIONS
    ensures var t := Run(s, SetMany(n, v));
            && t.saves == s.saves && t.origin == s.origin && t.accepted == s.accepted
            && t.session.revision == (s.session.revision + n) % REVISIONS
            && (n > 0 ==> t.session.data == s.session.data["k" := v] && t.session.dirty)
    decreases n
  {
    if n > 0 {
      var s1 := Step(s, Change(SetKey("k", v)));
      assert SetMany(n, v)[1..] == SetMany(n - 1, v);
      SetManyRuns(s1, n - 1, v);
      ModularNext(s.session.revision, n - 1);
      assert s1.session.data["k" := v] == s1.session.data;
    }
  }

  /** A Save overtaken by exactly 2^64 mutations: the flag is clean, the data was never saved. */
  function WrappingRun(v: Value): seq<Event> {
    [Snapshot(0), StoreAccepts(0)] + SetMany(REVISIONS, v) + [Complete(0)]
  }

  lemma WrappingRunHidesMutations(v: Value)
    ensures Changes(WrappingRun(v)) == REVISIONS
    ensures !CleanMeansSaved(Run(Start(map[]), WrappingRun(v)))
  {
    var head, body, last := [Snapshot(0), StoreAccepts(0)], SetMany(REVISIONS, v), [Complete(0)];
    ChangesSplit(head + body, last);
    ChangesSplit(head, body);
    assert Changes(head) == 0 by {
      assert head[1..] == [StoreAccepts(0)];
      assert head[1..][1..] == [];
    }
    assert Changes(last) == 0;
    var s0 := Start(map[]);
    var s1 := Step(s0, Snapshot(0));
    var s2 := Step(s1, StoreAccepts(0));
    assert Run(s0, head) == s2 by {
      assert head[1..] == [StoreAccepts(0)];
      assert head[1..][1..] == [];
      assert Run(s1, head[1..]) == Run(s2, head[1..][1..]);
    }
    RunSplit(s0, head + body, last);
    RunSplit(s0, head, body);
    SetManyRuns(s2, REVISIONS, v);
    var s3 := Run(s2, body);
    assert Run(s3, last) == Step(s3, Complete(0));
    assert "k" in s3.session.data;
    assert s2.saves[0] == Pending(State(map[], false, 0), 0, true);
    assert s2.accepted == {map[]};
  }

  /**
    Main result. Over every interleaving of mutations and concurrent saves with at most n
    mutations, a clean session holds its original data or data a store accepted,
    if and only if n is below 2^64.
   */
  lemma CleanMeansSavedExactly(n: nat)
    ensures (forall d: Data, es: seq<Event> ::
               Changes(es) <= n ==> CleanMeansSaved(Run(Start(d), es)))
            <==> n < REVISIONS
  {
    if n < REVISIONS {
      forall d: Data, es: seq<Event> | Changes(es) <= n
        ensures CleanMeansSaved(Run(Start(d), es))
      {
        RunKeepsInv(Start(d), es);
      }
    } else {
      WrappingRunHidesMutations(Other(0));
    }
  }
}
