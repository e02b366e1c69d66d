/** The order of phases in an endpoint run, read off the trace that every run has. */
module LifecycleOrder {
  import opened Wrappers
  import opened Protocol
  import opened ProtocolProofs

  /** How often a phase of the list starts, and how often it passes. */
  function Starts(stages: seq<Stage>, p: Phase): nat {
    if stages == [] then 0
    else (if stages[0].0 == p then 1 else 0)
         + (if stages[0].1.out.Done? then Starts(stages[1..], p) else 0)
  }

  function Passes(stages: seq<Stage>, p: Phase): nat {
    if stages == [] || !stages[0].1.out.Done? then 0
    else (if stages[0].0 == p then 1 else 0) + Passes(stages[1..], p)
  }

  lemma {:induction false} StageTraceCounts(seen: seq<Event>, stages: seq<Stage>, p: Phase)
    ensures var m := multiset(StageTrace(seen, stages));
            && m[Started(p)] == multiset(seen)[Started(p)] + Starts(stages, p)
            && m[Passed(p)] == multiset(seen)[Passed(p)] + Passes(stages, p)
    decreases |stages|
  {
    if stages != [] {
      var started := seen + [Started(stages[0].0)];
      assert multiset(started) == multiset(seen) + multiset{Started(stages[0].0)};
      if stages[0].1.out.Done? {
        var passed := started + [Passed(stages[0].0)];
        assert multiset(passed) == multiset(started) + multiset{Passed(stages[0].0)};
        StageTraceCounts(passed, stages[1..], p);
      }
    }
  }

  predicate IsDone(s: Option<Script>) {
    s.Some? ==> s.value.out.Done?
  }

  lemma CountsAfter(first: Phase, s: Option<Script>, rest: seq<Stage>, p: Phase)
    ensures Starts(Optional(first, s) + rest, p)
            == (if s.Some? && first == p then 1 else 0) + (if IsDone(s) then Starts(rest, p) else 0)
    ensures Passes(Optional(first, s) + rest, p)
            == if !IsDone(s) then 0 else (if s.Some? && first == p then 1 else 0) + Passes(rest, p)
  {
    if s.None? {
      assert Optional(first, s) + rest == rest;
    } else {
      assert (Optional(first, s) + rest)[1..] == rest;
    }
  }

  function InsertOf(e: Endpoint): Option<Script> {
    if e.persistence.Some? then Some(e.persistence.value.insert) else None
  }

  predicate ReachesInsert(e: Endpoint) {
    e.parse.out.Done? && IsDone(e.idParser)
  }

  predicate ReachesMain(e: Endpoint) {
    ReachesInsert(e) && IsDone(InsertOf(e)) && IsDone(e.initializer)
  }

  lemma StageCounts(e: Endpoint, p: Phase)
    ensures p == Main ==> Starts(Stages(e), p) == if ReachesMain(e) then 1 else 0
    ensures p == Insert ==>
              Passes(Stages(e), p) == if ReachesInsert(e) && InsertOf(e).Some? && IsDone(InsertOf(e)) then 1 else 0
    ensures p in {Recover, Finalize, Update} ==> Starts(Stages(e), p) == 0
  {
    var last := [(Main, e.main)];
    var inits := Optional(Initialize, e.initializer) + last;
    var inserts := Optional(Insert, InsertOf(e)) + inits;
    var ids := Optional(IdParse, e.idParser) + inserts;
    assert Optional(Parse, Some(e.parse)) + ids == Stages(e);
    assert last[1..] == [];
    CountsAfter(Initialize, e.initializer, last, p);
    CountsAfter(Insert, InsertOf(e), inits, p);
    CountsAfter(IdParse, e.idParser, inserts, p);
    CountsAfter(Parse, Some(e.parse), ids, p);
  }

  lemma OneMoreEvent(seen: seq<Event>, e: Event, p: Phase)
    ensures multiset(seen + [e])[Started(p)] == multiset(seen)[Started(p)] + (if e == Started(p) then 1 else 0)
  {
  }

  lemma ScriptTraceCounts(seen: seq<Event>, p: Phase, s: Script, q: Phase)
    ensures multiset(ScriptTrace(seen, p, s))[Started(q)]
            == multiset(seen)[Started(q)] + (if p == q then 1 else 0)
  {
    OneMoreEvent(seen, Started(p), q);
    OneMoreEvent(seen + [Started(p)], Passed(p), q);
  }

  lemma FinalizerTraceCounts(seen: seq<Event>, e: Endpoint, caught: bool, p: Phase)
    ensures multiset(FinalizerTrace(seen, e, caught))[Started(p)]
            == multiset(seen)[Started(p)]
               + (if p == Recover && caught && e.recovery then 1 else 0)
               + (if p == Finalize && e.finalizer.Some? then 1 else 0)
  {
    OneMoreEvent(seen, Started(Recover), p);
    var s1 := if caught && e.recovery then seen + [Started(Recover)] else seen;
    if e.finalizer.Some? {
      ScriptTraceCounts(s1, Finalize, e.finalizer.value, p);
    }
  }

  lemma FinalTraceCounts(seen: seq<Event>, e: Endpoint, inserted: bool, caught: bool, p: Phase)
    ensures multiset(FinalTrace(seen, e, inserted, caught))[Started(p)]
            == multiset(seen)[Started(p)]
               + (if p == Recover && caught && e.recovery then 1 else 0)
               + (if p == Finalize && e.finalizer.Some? then 1 else 0)
               + (if p == Update && e.persistence.Some? && inserted then 1 else 0)
  {
    FinalizerTraceCounts(seen, e, caught, p);
    OneMoreEvent(FinalizerTrace(seen, e, caught), Started(Update), p);
  }

  lemma InsertedExactly(e: Endpoint)
    ensures Inserted(e) <==> ReachesInsert(e) && InsertOf(e).Some? && IsDone(InsertOf(e))
  {
    StageCounts(e, Insert);
    StageTraceCounts([], Stages(e), Insert);
    assert Inserted(e) <==> multiset(StageTrace([], Stages(e)))[Passed(Insert)] > 0;
  }

  // ----- Positions -----

  /** Where a phase stands in the prescribed order. */
  function Place(p: Phase): nat {
    match p
    case Parse => 0
    case IdParse => 1
    case Insert => 2
    case Initialize => 3
    case Main => 4
    case Recover => 5
    case Finalize => 6
    case Update => 7
  }

  /** A phase event's place: a phase passes right after it starts. */
  function Moment(e: Event): int {
    match e
    case Started(p) => 2 * Place(p)
    case Passed(p) => 2 * Place(p) + 1
    case _ => -1
  }

  /** No event twice, and none before an earlier one's moment. */
  predicate InOrder(t: seq<Event>) {
    forall i, j :: 0 <= i < j < |t| ==> Moment(t[i]) < Moment(t[j])
  }

  /** Parse and the main handler always, the others if the endpoint has them. */
  predicate Configured(e: Endpoint, p: Phase) {
    match p
    case Parse => true
    case IdParse => e.idParser.Some?
    case Insert => e.persistence.Some?
    case Initialize => e.initializer.Some?
    case Main => true
    case _ => false
  }

  /** No lifecycle phase after q starts before q has passed. */
  predicate Gates(t: seq<Event>, q: Phase) {
    forall i :: 0 <= i < |t| && t[i].Started? && Place(q) < Place(t[i].phase) <= Place(Main) ==> Passed(q) in t[..i]
  }

  predicate Sorted(stages: seq<Stage>, from: nat) {
    stages != [] ==> from <= Place(stages[0].0) <= Place(Main) && Sorted(stages[1..], Place(stages[0].0) + 1)
  }

  predicate Has(stages: seq<Stage>, q: Phase) {
    stages != [] && (stages[0].0 == q || Has(stages[1..], q))
  }

  lemma SortedOptional(p: Phase, s: Option<Script>, rest: seq<Stage>, q: Phase)
    requires Place(p) < Place(Main) && Sorted(rest, Place(p) + 1)
    ensures Sorted(Optional(p, s) + rest, Place(p))
    ensures Has(Optional(p, s) + rest, q) <==> (s.Some? && p == q) || Has(rest, q)
  {
    if s.None? {
      assert Optional(p, s) + rest == rest;
    } else {
      assert (Optional(p, s) + rest)[1..] == rest;
    }
  }

  lemma StagesSorted(e: Endpoint, q: Phase)
    ensures Sorted(Stages(e), 0)
    ensures Has(Stages(e), q) <==> Configured(e, q)
  {
    var last := [(Main, e.main)];
    var inits := Optional(Initialize, e.initializer) + last;
    var inserts := Optional(Insert, InsertOf(e)) + inits;
    var ids := Optional(IdParse, e.idParser) + inserts;
    assert last[1..] == [];
    SortedOptional(Initialize, e.initializer, last, q);
    SortedOptional(Insert, InsertOf(e), inits, q);
    SortedOptional(IdParse, e.idParser, inserts, q);
    SortedOptional(Parse, Some(e.parse), ids, q);
    assert Optional(Parse, Some(e.parse)) + ids == Stages(e);
  }

  predicate Before(t: seq<Event>, moment: int) {
    forall i :: 0 <= i < |t| ==> Moment(t[i]) < moment
  }

  lemma InOrderSnoc(t: seq<Event>, e: Event)
    requires InOrder(t) && Before(t, Moment(e))
    ensures InOrder(t + [e]) && Before(t + [e], Moment(e) + 1)
  {
  }

  lemma {:induction false} StageTraceInOrder(seen: seq<Event>, stages: seq<Stage>, from: nat)
    requires InOrder(seen) && Before(seen, 2 * from) && Sorted(stages, from) && from <= Place(Main) + 1
    ensures InOrder(StageTrace(seen, stages)) && Before(StageTrace(seen, stages), 2 * (Place(Main) + 1))
    decreases |stages|
  {
    if stages != [] {
      var p := stages[0].0;
      InOrderSnoc(seen, Started(p));
      var started := seen + [Started(p)];
      if stages[0].1.out.Done? {
        InOrderSnoc(started, Passed(p));
        StageTraceInOrder(started + [Passed(p)], stages[1..], Place(p) + 1);
      }
    }
  }

  lemma FinalizerTraceInOrder(seen: seq<Event>, e: Endpoint, caught: bool)
    requires InOrder(seen) && Before(seen, 2 * Place(Recover))
    ensures var t := FinalizerTrace(seen, e, caught); InOrder(t) && Before(t, 2 * Place(Update))
  {
    InOrderSnoc(seen, Started(Recover));
    var s1 := if caught && e.recovery then seen + [Started(Recover)] else seen;
    if e.finalizer.Some? {
      ScriptTraceInOrder(s1, Finalize, e.finalizer.value);
    }
  }

  lemma ScriptTraceInOrder(seen: seq<Event>, p: Phase, s: Script)
    requires InOrder(seen) && Before(seen, 2 * Place(p))
    ensures var t := ScriptTrace(seen, p, s); InOrder(t) && Before(t, 2 * Place(p) + 2)
  {
    InOrderSnoc(seen, Started(p));
    InOrderSnoc(seen + [Started(p)], Passed(p));
  }

  lemma FinalTraceInOrder(seen: seq<Event>, e: Endpoint, inserted: bool, caught: bool)
    requires InOrder(seen) && Before(seen, 2 * Place(Recover))
    ensures InOrder(FinalTrace(seen, e, inserted, caught))
  {
    FinalizerTraceInOrder(seen, e, caught);
    InOrderSnoc(FinalizerTrace(seen, e, caught), Started(Update));
  }

  lemma GatesSnoc(t: seq<Event>, e: Event, q: Phase)
    requires Gates(t, q)
    requires e.Started? && Place(q) < Place(e.phase) <= Place(Main) ==> Passed(q) in t
    ensures Gates(t + [e], q)
  {
    var u := t + [e];
    forall i | 0 <= i < |u| && u[i].Started? && Place(q) < Place(u[i].phase) <= Place(Main)
      ensures Passed(q) in u[..i]
    {
      if i < |t| {
        assert u[..i] == t[..i] && u[i] == t[i];
      } else {
        assert u[..i] == t;
      }
    }
  }

  lemma {:induction false} SortedHas(stages: seq<Stage>, from: nat, q: Phase)
    requires Sorted(stages, from) && Has(stages, q)
    ensures from <= Place(q)
    decreases |stages|
  {
    if stages[0].0 != q {
      SortedHas(stages[1..], Place(stages[0].0) + 1, q);
    }
  }

  lemma {:induction false} StageTraceGates(seen: seq<Event>, stages: seq<Stage>, from: nat, q: Phase)
    requires Gates(seen, q) && Sorted(stages, from) && (Passed(q) in seen || Has(stages, q))
    ensures Gates(StageTrace(seen, stages), q)
    decreases |stages|
  {
    if stages != [] {
      var p := stages[0].0;
      if Passed(q) !in seen && p != q {
        SortedHas(stages[1..], Place(p) + 1, q);
      }
      GatesSnoc(seen, Started(p), q);
      var started := seen + [Started(p)];
      if stages[0].1.out.Done? {
        GatesSnoc(started, Passed(p), q);
        StageTraceGates(started + [Passed(p)], stages[1..], Place(p) + 1, q);
      }
    }
  }

  lemma FinalTraceGates(seen: seq<Event>, e: Endpoint, inserted: bool, caught: bool, q: Phase)
    requires Gates(seen, q)
    ensures Gates(FinalTrace(seen, e, inserted, caught), q)
  {
    var s1 := if caught && e.recovery then seen + [Started(Recover)] else seen;
    GatesSnoc(seen, Started(Recover), q);
    GatesSnoc(s1, Started(Finalize), q);
    GatesSnoc(s1 + [Started(Finalize)], Passed(Finalize), q);
    GatesSnoc(FinalizerTrace(seen, e, caught), Started(Update), q);
  }

  /**
    Main result, for every endpoint run, panics included. The phase events come in the order
    Parse, IdParse, Insert, Initialize, Main, Recover, Finalize, Update, each at most once; and
    when a lifecycle phase starts, every configured one before it has passed.
   */
  lemma PhasesStandInOrder(e: Endpoint)
    ensures InOrder(RunTrace(e))
    ensures forall q :: Configured(e, q) ==> Gates(RunTrace(e), q)
  {
    var seen := StageTrace([], Stages(e));
    var caught := PanicsIn(e, Stages(e));
    StagesSorted(e, Main);
    StageTraceInOrder([], Stages(e), 0);
    FinalTraceInOrder(seen, e, Inserted(e), caught);
    forall q | Configured(e, q)
      ensures Gates(RunTrace(e), q)
    {
      StagesSorted(e, q);
      StageTraceGates([], Stages(e), 0, q);
      FinalTraceGates(seen, e, Inserted(e), caught, q);
    }
  }

  lemma LifecycleCounts(e: Endpoint)
    ensures var m := multiset(RunTrace(e));
            && m[Started(Main)] == (if ReachesMain(e) then 1 else 0)
            && m[Started(Recover)] == (if PanicsIn(e, Stages(e)) && e.recovery then 1 else 0)
            && m[Started(Finalize)] == (if e.finalizer.Some? then 1 else 0)
            && m[Started(Update)]
               == (if ReachesInsert(e) && InsertOf(e).Some? && IsDone(InsertOf(e)) then 1 else 0)
  {
    var seen := StageTrace([], Stages(e));
    InsertedExactly(e);
    forall p | p in {Main, Recover, Finalize, Update}
      ensures multiset(seen)[Started(p)] == Starts(Stages(e), p)
    {
      StageTraceCounts([], Stages(e), p);
    }
    forall p | p in {Main, Recover, Finalize, Update}
      ensures multiset(RunTrace(e))[Started(p)]
              == Starts(Stages(e), p)
                 + (if p == Recover && PanicsIn(e, Stages(e)) && e.recovery then 1 else 0)
                 + (if p == Finalize && e.finalizer.Some? then 1 else 0)
                 + (if p == Update && e.persistence.Some? && Inserted(e) then 1 else 0)
    {
      FinalTraceCounts(seen, e, Inserted(e), PanicsIn(e, Stages(e)), p);
    }
    StageCounts(e, Main);
    StageCounts(e, Recover);
    StageCounts(e, Finalize);
    StageCounts(e, Update);
  }

  /** The main handler starts only after each configured phase before it has passed. */
  predicate MainComesLast(t: seq<Event>, e: Endpoint) {
    forall i, q :: 0 <= i < |t| && t[i] == Started(Main) && q != Main && Configured(e, q) ==> Passed(q) in t[..i]
  }

  predicate IsLifecycleEvent(e: Event) {
    (e.Started? || e.Passed?) && Place(e.phase) <= Place(Main)
  }

  /** The finalizer starts after every lifecycle event, and the update after the finalizer. */
  predicate TailComesAfter(t: seq<Event>) {
    forall i, j :: 0 <= i < |t| && 0 <= j < |t| ==>
      && (IsLifecycleEvent(t[i]) && t[j] == Started(Finalize) ==> i < j)
      && (t[i] == Started(Finalize) && t[j] == Started(Update) ==> i < j)
  }

  lemma InOrderTail(t: seq<Event>)
    requires InOrder(t)
    ensures TailComesAfter(t)
  {
  }

  /**
    Main result, for every endpoint run, panics included. The main handler starts once, exactly
    when every phase before it is done, and only after each of them has passed, in their order; a
    recovery handler is told exactly of a panic; a configured finalizer starts exactly once, after
    every lifecycle event; the update starts once, exactly when the insert succeeded, and after
    the finalizer.
   */
  lemma LifecycleIsOrdered(e: Endpoint)
    ensures var t := RunTrace(e); InOrder(t) && MainComesLast(t, e) && TailComesAfter(t)
    ensures var m := multiset(RunTrace(e));
            && m[Started(Main)] == (if ReachesMain(e) then 1 else 0)
            && m[Started(Recover)] == (if PanicsIn(e, Stages(e)) && e.recovery then 1 else 0)
            && m[Started(Finalize)] == (if e.finalizer.Some? then 1 else 0)
            && m[Started(Update)]
               == (if ReachesInsert(e) && InsertOf(e).Some? && IsDone(InsertOf(e)) then 1 else 0)
  {
    PhasesStandInOrder(e);
    InOrderTail(RunTrace(e));
    GatesMain(RunTrace(e), e);
    LifecycleCounts(e);
  }

  lemma GatesMain(t: seq<Event>, e: Endpoint)
    requires forall q :: Configured(e, q) ==> Gates(t, q)
    ensures MainComesLast(t, e)
  {
    forall i, q | 0 <= i < |t| && t[i] == Started(Main) && q != Main && Configured(e, q)
      ensures Passed(q) in t[..i]
    {
      assert Gates(t, q);
    }
  }

  /** And so are the phases in the log of every adapted run. */
  lemma AdaptedRunIsOrdered(router: Option<Registry>, e: Endpoint, r: Registry, c: Ctx)
    requires Fresh(c)
    ensures var t := Read(Adapt(router, e, r, c).log).phases;
            InOrder(t) && MainComesLast(t, e) && TailComesAfter(t)
  {
    AdaptedRunIsSafe(router, e, r, c);
    LifecycleIsOrdered(e);
  }
}
