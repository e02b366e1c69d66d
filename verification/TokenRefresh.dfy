/** The shared token cache of a remote API (libCallApi/auth.go): double-checked locking. */
module TokenRefresh {
  import opened Wrappers

  datatype Token = Token(text: string, taken: int, validFor: int)

  datatype Cache = Cache(access: Option<Token>, refresh: Option<string>)

  predicate Expired(t: Option<Token>, now: int) {
    t.None? || now > t.value.taken + t.value.validFor
  }

  predicate CanRefresh(c: Cache) {
    c.refresh.Some? && c.refresh.value != ""
  }

  /** A refresh that brings no new refresh token keeps the old one. */
  function Refreshed(c: Cache, tokens: Cache): Cache {
    Cache(tokens.access, if tokens.refresh.Some? then tokens.refresh else c.refresh)
  }

  datatype Outcome = Unchanged | NotConfigured | GotTokens | LoginFailed

  /** One critical section, with what Refresh and Login would answer (None for an error). */
  function Critical(c: Cache, configured: bool, now: int, refresh: Option<Cache>, login: Option<Cache>)
    : (Cache, Outcome)
  {
    if !Expired(c.access, now) then (c, Unchanged)
    else if !configured then (c, NotConfigured)
    else if CanRefresh(c) && refresh.Some? then (Refreshed(c, refresh.value), GotTokens)
    else if login.Some? then (login.value, GotTokens)
    else (Cache(None, None), LoginFailed)
  }

  class RemoteApi {
    var cache: Cache
    const configured: bool

    constructor (configured: bool)
      ensures cache == Cache(None, None) && this.configured == configured
    {
      this.configured := configured;
      cache := Cache(None, None);
    }

    /** handleToken, with the lock held. `login` answers only if it is asked. */
    method HandleToken(now: int, refresh: Option<Cache>, login: Option<Cache>) returns (out: Outcome)
      modifies this
      ensures (cache, out) == Critical(old(cache), configured, now, refresh, login)
      ensures out == Unchanged <==>
              && old(cache).access.Some?
              && now <= old(cache).access.value.taken + old(cache).access.value.validFor
      ensures out in {Unchanged, NotConfigured} ==> cache == old(cache)
      ensures out == NotConfigured ==> !configured
      ensures out in {GotTokens, LoginFailed} ==> configured
      ensures var refreshes := old(cache).refresh.Some? && old(cache).refresh.value != "" && refresh.Some?;
              && (out == GotTokens && refreshes ==>
                    && cache.access == refresh.value.access
                    && cache.refresh
                       == if refresh.value.refresh.Some? then refresh.value.refresh else old(cache).refresh)
              && (out == GotTokens && !refreshes ==> Some(cache) == login)
              && (out == LoginFailed ==> !refreshes && login.None? && cache.access.None? && cache.refresh.None?)
    {
      if cache.access.Some? && !Expired(cache.access, now) {
        return Unchanged;
      }
      if !configured {
        return NotConfigured;
      }
      if CanRefresh(cache) {
        if refresh.Some? {
          cache := Cache(refresh.value.access, cache.refresh);
          if refresh.value.refresh.Some? {
            cache := cache.(refresh := Some(refresh.value.refresh.value));
          }
          return GotTokens;
        }
      }
      cache := Cache(None, None);
      if login.None? {
        return LoginFailed;
      }
      cache := login.value;
      return GotTokens;
    }
  }

  // ----- Any number of callers -----

  /** Where a caller stands: before its call, waiting for the lock, or inside the section. */
  datatype Place = Waiting | Locked | Refreshing | LoggingIn

  /** A remote exchange that started: when, by whom and over which cache. */
  datatype Start =
    | RefreshStart(at: int, caller: nat, cache: Cache)
    | LoginStart(at: int, caller: nat, cache: Cache)

  /**
    The clock, the cache, the lock, the callers inside Authenticate, and three histories: the
    access tokens exchanges have brought, the exchanges that started, and what happened to the
    refresh token.
   */
  datatype System = System(now: int, cache: Cache, configured: bool, holder: Option<nat>,
                           places: map<nat, Place>, issued: seq<Option<Token>>, starts: seq<Start>,
                           turns: seq<Turn>)

  /** A login began, or an exchange brought a refresh token or none. */
  datatype Turn = LoginBegan | Brought(refresh: Option<string>)

  datatype Event =
    | Tick(delta: nat)
    | Call(id: nat)
    | Acquire(id: nat)
    | Decide(id: nat)
    | RefreshOk(id: nat, tokens: Cache)
    | RefreshFails(id: nat)
    | LoginOk(id: nat, tokens: Cache)
    | LoginFails(id: nat)

  predicate At(s: System, id: nat, p: Place) {
    id in s.places && s.places[id] == p
  }

  function Leave(s: System, id: nat): System {
    s.(holder := None, places := s.places - {id})
  }

  /** Tokens are dropped, then Login is asked. */
  function StartLogin(s: System, id: nat): System {
    s.(cache := Cache(None, None), places := s.places[id := LoggingIn],
       starts := s.starts + [LoginStart(s.now, id, s.cache)], turns := s.turns + [LoginBegan])
  }

  /** An event that is not possible changes nothing. */
  function Step(s: System, e: Event): System {
    match e
    case Tick(delta) => s.(now := s.now + delta)
    case Call(id) =>
      if id !in s.places && Expired(s.cache.access, s.now)
      then s.(places := s.places[id := Waiting]) else s
    case Acquire(id) =>
      if At(s, id, Waiting) && s.holder.None?
      then s.(holder := Some(id), places := s.places[id := Locked]) else s
    case Decide(id) =>
      if !At(s, id, Locked) then s
      else if !Expired(s.cache.access, s.now) || !s.configured then Leave(s, id)
      else if CanRefresh(s.cache)
      then s.(places := s.places[id := Refreshing], starts := s.starts + [RefreshStart(s.now, id, s.cache)])
      else StartLogin(s, id)
    case RefreshOk(id, tokens) =>
      if At(s, id, Refreshing)
      then Leave(s, id).(cache := Refreshed(s.cache, tokens), issued := s.issued + [tokens.access],
                         turns := s.turns + [Brought(tokens.refresh)])
      else s
    case RefreshFails(id) =>
      if At(s, id, Refreshing) then StartLogin(s, id) else s
    case LoginOk(id, tokens) =>
      if At(s, id, LoggingIn)
      then Leave(s, id).(cache := tokens, issued := s.issued + [tokens.access],
                         turns := s.turns + [Brought(tokens.refresh)])
      else s
    case LoginFails(id) =>
      if At(s, id, LoggingIn) then Leave(s, id) else s
  }

  function Run(s: System, es: seq<Event>): System
    decreases |es|
  {
    if es == [] then s else Run(Step(s, es[0]), es[1..])
  }

  function Initial(c: Cache, configured: bool, now: int): System {
    System(now, c, configured, None, map[], [], [], [])
  }

  function ExpiredCount(issued: seq<Option<Token>>, now: int): nat {
    if issued == [] then 0
    else
      var over := issued[0].None? || now > issued[0].value.taken + issued[0].value.validFor;
      (if over then 1 else 0) + ExpiredCount(issued[1..], now)
  }

  /**
    The k-th exchange started over an expired token; a refresh had a refresh token to use, and a
    login had none, or comes straight after the same caller's refresh over the same cache.
   */
  predicate StartOk(starts: seq<Start>, k: nat)
    requires k < |starts|
  {
    var x := starts[k];
    && (x.cache.access.Some? ==> x.at > x.cache.access.value.taken + x.cache.access.value.validFor)
    && (x.RefreshStart? ==> x.cache.refresh.Some? && x.cache.refresh.value != "")
    && (x.LoginStart? && x.cache.refresh.Some? && x.cache.refresh.value != "" ==>
          k > 0 && starts[k - 1].RefreshStart? && starts[k - 1].caller == x.caller && starts[k - 1].cache == x.cache)
  }

  /** A caller waiting for Refresh made the latest start, over the cache as it still is. */
  predicate RefreshPending(s: System) {
    forall id :: id in s.places && s.places[id] == Refreshing ==>
      && s.starts != []
      && s.starts[|s.starts| - 1].RefreshStart?
      && s.starts[|s.starts| - 1].caller == id
      && s.starts[|s.starts| - 1].cache == s.cache
  }

  /** Exactly the lock's holder is inside the section. */
  predicate Exclusive(s: System) {
    forall id :: id in s.places ==> (s.places[id] != Waiting <==> s.holder == Some(id))
  }

  /** Every issued token but the one in the cache has expired. */
  predicate IssuedOk(s: System) {
    && (forall k :: 0 <= k < |s.issued| - 1 ==> Expired(s.issued[k], s.now))
    && (s.issued != [] ==>
          var last := s.issued[|s.issued| - 1];
          s.cache.access == last || (s.cache.access.None? && Expired(last, s.now)))
  }

  /** One caller at most is inside, and an exchange is only under way over an expired token. */
  predicate LockOk(s: System) {
    && Exclusive(s)
    && (s.holder.Some? ==> s.holder.value in s.places)
    && (forall id :: id in s.places && s.places[id] in {Refreshing, LoggingIn} ==> Expired(s.cache.access, s.now))
  }

  predicate StartsOk(s: System) {
    && (forall k :: 0 <= k < |s.starts| ==> StartOk(s.starts, k))
    && RefreshPending(s)
  }

  predicate Inv(s: System) {
    LockOk(s) && StartsOk(s) && IssuedOk(s)
  }

  lemma StepKeepsLock(s: System, e: Event)
    requires LockOk(s)
    ensures LockOk(Step(s, e))
  {
  }

  lemma StepKeepsStarts(s: System, e: Event)
    requires LockOk(s) && StartsOk(s)
    ensures StartsOk(Step(s, e))
  {
    var t := Step(s, e);
    forall k | 0 <= k < |t.starts|
      ensures StartOk(t.starts, k)
    {
      if k < |s.starts| {
        assert StartOk(s.starts, k);
      }
    }
  }

  lemma StepKeepsIssued(s: System, e: Event)
    requires LockOk(s) && IssuedOk(s)
    ensures IssuedOk(Step(s, e))
  {
  }

  lemma StepKeepsInv(s: System, e: Event)
    requires Inv(s)
    ensures Inv(Step(s, e))
  {
    StepKeepsLock(s, e);
    StepKeepsStarts(s, e);
    StepKeepsIssued(s, e);
  }

  lemma {:induction false} RunKeepsInv(s: System, es: seq<Event>)
    requires Inv(s)
    ensures Inv(Run(s, es))
    decreases |es|
  {
    if es != [] {
      StepKeepsInv(s, es[0]);
      RunKeepsInv(Step(s, es[0]), es[1..]);
    }
  }

  lemma {:induction false} AllButLastExpired(issued: seq<Option<Token>>, now: int)
    requires forall k :: 0 <= k < |issued| - 1 ==> Expired(issued[k], now)
    ensures |issued| <= 1 + ExpiredCount(issued, now)
  {
    if |issued| > 1 {
      assert forall k :: 0 <= k < |issued| - 2 ==> issued[1..][k] == issued[k + 1];
      AllButLastExpired(issued[1..], now);
    }
  }

  // ----- Which refresh token is kept -----

  /** No exchange brought a refresh token in these turns, and no login began. */
  predicate Quiet(turns: seq<Turn>) {
    forall i :: 0 <= i < |turns| ==> turns[i] == Brought(None)
  }

  /** The i-th turn brought the token t, and none later brought another or began a login. */
  predicate LastBroughtAt(turns: seq<Turn>, i: int, t: string) {
    0 <= i < |turns| && turns[i] == Brought(Some(t)) && Quiet(turns[i + 1..])
  }

  /** The last refresh token brought since the latest login began, or the one from the start. */
  ghost predicate Keeps(initial: Option<string>, turns: seq<Turn>, t: string) {
    (initial == Some(t) && Quiet(turns)) || exists i :: LastBroughtAt(turns, i, t)
  }

  lemma QuietSnoc(turns: seq<Turn>, last: Turn)
    ensures Quiet(turns + [last]) <==> Quiet(turns) && last == Brought(None)
  {
    var all := turns + [last];
    assert all[|turns|] == last && forall i :: 0 <= i < |turns| ==> all[i] == turns[i];
  }

  lemma LastBroughtSnoc(turns: seq<Turn>, last: Turn, i: int, t: string)
    ensures LastBroughtAt(turns + [last], i, t)
            <==> (i == |turns| && last == Brought(Some(t))) || (LastBroughtAt(turns, i, t) && last == Brought(None))
  {
    var all := turns + [last];
    if 0 <= i < |turns| {
      assert all[i] == turns[i] && all[i + 1..] == turns[i + 1..] + [last];
      QuietSnoc(turns[i + 1..], last);
    } else if i == |turns| {
      assert all[i + 1..] == [];
    }
  }

  lemma KeepsSnoc(initial: Option<string>, turns: seq<Turn>, last: Turn, t: string)
    ensures Keeps(initial, turns + [last], t)
            <==> last == Brought(Some(t)) || (last == Brought(None) && Keeps(initial, turns, t))
  {
    QuietSnoc(turns, last);
    LastBroughtSnoc(turns, last, |turns|, t);
    if i :| LastBroughtAt(turns + [last], i, t) {
      LastBroughtSnoc(turns, last, i, t);
    }
    if i :| LastBroughtAt(turns, i, t) {
      LastBroughtSnoc(turns, last, i, t);
    }
  }

  /** While a login is under way nothing is cached. */
  predicate LoginEmpties(s: System) {
    forall id :: id in s.places && s.places[id] == LoggingIn ==> s.cache == Cache(None, None)
  }

  ghost predicate KeptOk(initial: Option<string>, s: System) {
    forall t :: s.cache.refresh == Some(t) <==> Keeps(initial, s.turns, t)
  }

  lemma StepKeepsEmpty(s: System, e: Event)
    requires LockOk(s) && LoginEmpties(s)
    ensures LoginEmpties(Step(s, e))
  {
  }

  lemma OneMoreTurn(initial: Option<string>, turns: seq<Turn>, last: Turn)
    ensures forall t :: Keeps(initial, turns + [last], t)
                        <==> last == Brought(Some(t)) || (last == Brought(None) && Keeps(initial, turns, t))
  {
    forall t
      ensures Keeps(initial, turns + [last], t)
              <==> last == Brought(Some(t)) || (last == Brought(None) && Keeps(initial, turns, t))
    {
      KeepsSnoc(initial, turns, last, t);
    }
  }

  lemma StepKeepsRefresh(initial: Option<string>, s: System, e: Event)
    requires LockOk(s) && LoginEmpties(s) && KeptOk(initial, s)
    ensures KeptOk(initial, Step(s, e))
  {
    match e
    case RefreshOk(id, tokens) => OneMoreTurn(initial, s.turns, Brought(tokens.refresh));
    case LoginOk(id, tokens) => OneMoreTurn(initial, s.turns, Brought(tokens.refresh));
    case _ => OneMoreTurn(initial, s.turns, LoginBegan);
  }

  lemma {:induction false} RunKeepsRefresh(initial: Option<string>, s: System, es: seq<Event>)
    requires Inv(s) && LoginEmpties(s) && KeptOk(initial, s)
    ensures KeptOk(initial, Run(s, es))
    decreases |es|
  {
    if es != [] {
      StepKeepsInv(s, es[0]);
      StepKeepsEmpty(s, es[0]);
      StepKeepsRefresh(initial, s, es[0]);
      RunKeepsRefresh(initial, Step(s, es[0]), es[1..]);
    }
  }

  /**
    Main result, in every run: the cached refresh token is the last one an exchange brought since
    the latest login began, or, if no login began and none was brought, the one from the start.
   */
  lemma LatestRefreshTokenIsKept(c: Cache, configured: bool, now: int, es: seq<Event>, t: string)
    ensures var s := Run(Initial(c, configured, now), es);
            s.cache.refresh == Some(t) <==> Keeps(c.refresh, s.turns, t)
  {
    var s := Initial(c, configured, now);
    assert forall u :: Keeps(c.refresh, s.turns, u) <==> c.refresh == Some(u);
    RunKeepsRefresh(c.refresh, s, es);
  }

  // ----- The method HandleToken is one section of that machine -----

  function SectionEvents(id: nat, refresh: Option<Cache>, login: Option<Cache>): seq<Event> {
    [Decide(id),
     if refresh.Some? then RefreshOk(id, refresh.value) else RefreshFails(id),
     if login.Some? then LoginOk(id, login.value) else LoginFails(id)]
  }

  /** A caller holding the lock leaves the cache as Critical says, whichever branch it takes. */
  lemma SectionIsCritical(s: System, id: nat, refresh: Option<Cache>, login: Option<Cache>)
    requires At(s, id, Locked)
    ensures Run(s, SectionEvents(id, refresh, login)).cache
            == Critical(s.cache, s.configured, s.now, refresh, login).0
  {
    var es := SectionEvents(id, refresh, login);
    var s1 := Step(s, es[0]);
    var s2 := Step(s1, es[1]);
    assert es[1..][0] == es[1] && es[1..][1..] == [es[2]] && [es[2]][1..] == [];
    assert Run(s2, [es[2]]) == Step(s2, es[2]);
    assert Run(s1, es[1..]) == Run(s2, [es[2]]);
  }

  /**
    Main result. For any number of callers, any interleaving and any answers, under a clock that
    never goes back: at most one caller is inside the section; no Login or Refresh starts while
    the cache holds an unexpired token; Login starts only without a usable refresh token or right
    after the same section's refresh; and successful exchanges are at most one more than the issued tokens
    that have expired.
   */
  lemma RefreshIsSafe(c: Cache, configured: bool, now: int, es: seq<Event>)
    ensures var s := Run(Initial(c, configured, now), es);
            && Exclusive(s)
            && (forall k :: 0 <= k < |s.starts| ==> StartOk(s.starts, k))
            && |s.issued| <= 1 + ExpiredCount(s.issued, s.now)
  {
    RunKeepsInv(Initial(c, configured, now), es);
    AllButLastExpired(Run(Initial(c, configured, now), es).issued, Run(Initial(c, configured, now), es).now);
  }
}
