/** How the Fiber adapter's catch-all tells 404 from 405 (v2/libFiber/router.go). */
module FiberRouter {
  import opened Wrappers
  import opened PathSegments
  import opened Routing

  /** A path without its one leading slash. */
  function Relative(p: string): string {
    if p != "" && p[0] == '/' then p[1..] else p
  }

  function SplitPath(p: string): seq<string> {
    if Relative(p) == "" then [] else Split(Relative(p), '/')
  }

  /**
    A path's segments are its parts without slashes: those that, joined by slashes, give the path
    back up to one leading slash. The empty path and "/" have none.
   */
  lemma SegmentsExactly(path: string, segs: seq<string>)
    requires segs != [] && forall i :: 0 <= i < |segs| ==> '/' !in segs[i]
    ensures SplitPath("") == [] && SplitPath("/") == []
    ensures Join(segs, '/') != "" && path == "/" + Join(segs, '/') ==> SplitPath(path) == segs
    ensures path == Join(segs, '/') && path != "" && path[0] != '/' ==> SplitPath(path) == segs
  {
    SplitOfJoin(segs, '/');
    assert ("/" + Join(segs, '/'))[1..] == Join(segs, '/');
  }

  /** And every other path has such a list. */
  lemma SegmentsExist(path: string)
    requires path != "" && path != "/"
    ensures SplitPath(path) != [] && forall i :: 0 <= i < |SplitPath(path)| ==> '/' !in SplitPath(path)[i]
    ensures path == Join(SplitPath(path), '/') || path == "/" + Join(SplitPath(path), '/')
  {
    JoinOfSplit(Relative(path), '/');
    assert path[0] == '/' ==> path == "/" + path[1..];
  }

  /** A ":name" or "*" segment, which takes any segment of the path. */
  predicate Wild(segment: string) {
    segment != "" && segment[0] in {':', '*'}
  }

  predicate SegmentMatches(pattern: string, segment: string) {
    Wild(pattern) || pattern == segment
  }

  /** Segment by segment, with as many on both sides. */
  predicate Matches(pattern: string, path: string) {
    var ps, qs := SplitPath(pattern), SplitPath(path);
    |ps| == |qs| && forall i :: 0 <= i < |ps| ==> SegmentMatches(ps[i], qs[i])
  }

  method FiberPathMatches(pattern: string, path: string) returns (ok: bool)
    ensures ok <==> Matches(pattern, path)
  {
    if pattern == path {
      return true;
    }
    var patternParts := SplitPath(pattern);
    var pathParts := SplitPath(path);
    if |patternParts| != |pathParts| {
      return false;
    }
    for i := 0 to |patternParts|
      invariant forall k :: 0 <= k < i ==> SegmentMatches(patternParts[k], pathParts[k])
    {
      var part := patternParts[i];
      if Wild(part) {
        continue;
      }
      if part != pathParts[i] {
        return false;
      }
    }
    return true;
  }

  // ----- matching a translated pattern is matching the canonical one -----

  function OnePassEach(segs: seq<string>): (r: seq<string>)
    ensures |r| == |segs|
  {
    if segs == [] then [] else [OnePass(segs[0])] + OnePassEach(segs[1..])
  }

  lemma {:induction false} OnePassEachAt(segs: seq<string>, i: nat)
    requires i < |segs|
    ensures OnePassEach(segs)[i] == OnePass(segs[i])
  {
    if i > 0 {
      OnePassEachAt(segs[1..], i - 1);
    }
  }

  /** Translating and cutting into segments commute. */
  lemma {:induction false} SplitOfOnePass(s: string)
    ensures Split(OnePass(s), '/') == OnePassEach(Split(s, '/'))
  {
    if s != "" {
      SplitOfOnePass(s[1..]);
      var rest := Split(s[1..], '/');
      var segs := Split(s, '/');
      assert OnePassEach(rest) == [OnePass(rest[0])] + OnePassEach(rest[1..]);
      if s[0] == '/' {
        assert segs[1..] == rest && OnePass(s) == "/" + OnePass(s[1..]);
        assert OnePass(s)[1..] == OnePass(s[1..]);
      } else {
        assert segs[1..] == rest[1..] && segs[0] == [s[0]] + rest[0] && segs[0][1..] == rest[0];
        HeadOfOnePass(s);
        HeadOfOnePass(segs[0]);
        if s[0] == '}' {
          assert OnePassEach(segs) == OnePassEach(rest);
        } else {
          var t := OnePass(s);
          assert Split(t, '/') == [[t[0]] + OnePass(rest[0])] + OnePassEach(rest)[1..];
          assert OnePass(segs[0]) == [t[0]] + OnePass(rest[0]);
        }
      }
    }
  }

  lemma HeadOfOnePass(s: string)
    requires s != ""
    ensures s[0] == '}' ==> OnePass(s) == OnePass(s[1..])
    ensures s[0] != '}' ==>
              OnePass(s) != "" && OnePass(s)[0] == (if s[0] == '{' then ':' else s[0]) &&
              OnePass(s)[1..] == OnePass(s[1..])
  {
    assert "" + OnePass(s[1..]) == OnePass(s[1..]);
  }

  /** A canonical segment's characters other than closing braces. */
  function WithoutCloses(s: string): string {
    if s == "" then ""
    else if s[0] == '}' then WithoutCloses(s[1..])
    else [s[0]] + WithoutCloses(s[1..])
  }

  /** A segment that begins with a parameter takes anything; so does a literal ':' or '*'. */
  predicate TakesAnything(segment: string) {
    var s := WithoutCloses(segment);
    s != "" && s[0] in {'{', ':', '*'}
  }

  /** Any other segment stands for itself, an open brace inside it for a colon. */
  predicate Spells(segment: string, text: string) {
    var s := WithoutCloses(segment);
    |s| == |text| && forall i :: 0 <= i < |s| ==> text[i] == if s[i] == '{' then ':' else s[i]
  }

  /** What a canonical pattern means, segment by segment. */
  predicate CanonicalMatches(pattern: string, path: string) {
    var ps, qs := SplitPath(pattern), SplitPath(path);
    |ps| == |qs| && forall i :: 0 <= i < |ps| ==> TakesAnything(ps[i]) || Spells(ps[i], qs[i])
  }

  lemma {:induction false} OnePassSpells(segment: string)
    ensures Spells(segment, OnePass(segment))
  {
    if segment != "" {
      OnePassSpells(segment[1..]);
      HeadOfOnePass(segment);
      if segment[0] != '}' {
        var s, t := WithoutCloses(segment), OnePass(segment);
        assert s[1..] == WithoutCloses(segment[1..]);
        forall i | 0 < i < |s|
          ensures t[i] == if s[i] == '{' then ':' else s[i]
        {
          assert t[i] == t[1..][i - 1] && s[i] == s[1..][i - 1];
        }
      }
    }
  }

  lemma SegmentOfOnePass(segment: string, text: string)
    ensures SegmentMatches(OnePass(segment), text) <==> TakesAnything(segment) || Spells(segment, text)
  {
    var s, t := WithoutCloses(segment), OnePass(segment);
    OnePassSpells(segment);
    assert Wild(t) <==> TakesAnything(segment);
    if Spells(segment, text) {
      assert forall i :: 0 <= i < |s| ==> text[i] == t[i];
      assert text == t;
    }
  }

  lemma SplitPathOfOnePass(pattern: string)
    requires Balanced(pattern, 0)
    ensures SplitPath(OnePass(pattern)) == OnePassEach(SplitPath(pattern))
  {
    if pattern != "" {
      HeadOfOnePass(pattern);
      var q := Relative(pattern);
      assert Relative(OnePass(pattern)) == OnePass(q);
      assert Balanced(q, 0);
      if q != "" {
        HeadOfOnePass(q);
        SplitOfOnePass(q);
      }
    }
  }

  /** Main result: the pattern Fiber is given matches exactly the paths the canonical one means. */
  lemma TranslatedMatchesCanonical(pattern: string, path: string)
    requires Alternates(Braces(pattern))
    ensures Matches(Translate(pattern), path) <==> CanonicalMatches(pattern, path)
  {
    ValidPatternsTranslateInOnePass(pattern);
    AlternatingIsBalanced(pattern, 0);
    SplitPathOfOnePass(pattern);
    var ps, qs := SplitPath(pattern), SplitPath(path);
    if |ps| == |qs| {
      forall i | 0 <= i < |ps|
        ensures SegmentMatches(OnePassEach(ps)[i], qs[i]) <==> TakesAnything(ps[i]) || Spells(ps[i], qs[i])
      {
        OnePassEachAt(ps, i);
        SegmentOfOnePass(ps[i], qs[i]);
      }
    }
  }

  // ----- the router -----

  datatype Route = Route(verb: string, pattern: string)

  predicate Reached(routes: seq<Route>, path: string) {
    exists r :: r in routes && Matches(r.pattern, path)
  }

  predicate Allowed(routes: seq<Route>, verb: string, path: string) {
    exists r :: r in routes && Matches(r.pattern, path) && r.verb == verb
  }

  /** The path is known, but not with this method. */
  predicate WrongMethod(routes: seq<Route>, verb: string, path: string) {
    Reached(routes, path) && !Allowed(routes, verb, path)
  }

  lemma OneMoreRoute(routes: seq<Route>, r: Route, verb: string, path: string)
    ensures Reached(routes + [r], path) <==> Reached(routes, path) || Matches(r.pattern, path)
    ensures Allowed(routes + [r], verb, path)
            <==> Allowed(routes, verb, path) || (Matches(r.pattern, path) && r.verb == verb)
  {
    assert forall x :: x in routes + [r] <==> x in routes || x == r;
  }

  lemma AllowedInMore(routes: seq<Route>, more: seq<Route>, verb: string, path: string)
    requires routes <= more && Allowed(routes, verb, path)
    ensures Allowed(more, verb, path)
  {
    var r :| r in routes && Matches(r.pattern, path) && r.verb == verb;
    assert r in more;
  }

  /** The canonical patterns that were registered, in the form Fiber gets them. */
  function Registered(canonical: seq<Route>): (r: seq<Route>)
    ensures |r| == |canonical|
    ensures forall i :: 0 <= i < |r| ==> r[i] == Route(canonical[i].verb, Translate(canonical[i].pattern))
  {
    seq(|canonical|, i requires 0 <= i < |canonical| => Route(canonical[i].verb, Translate(canonical[i].pattern)))
  }

  /** The catch-all's loop over the routes; the break is final because the flag is cleared first. */
  method FindWrongMethod(routes: seq<Route>, verb: string, path: string) returns (pathMatches: bool)
    ensures pathMatches <==> WrongMethod(routes, verb, path)
  {
    pathMatches := false;
    for i := 0 to |routes|
      invariant pathMatches <==> Reached(routes[..i], path)
      invariant !Allowed(routes[..i], verb, path)
    {
      var entry := routes[i];
      assert routes[..i + 1] == routes[..i] + [entry];
      OneMoreRoute(routes[..i], entry, verb, path);
      var m := FiberPathMatches(entry.pattern, path);
      if m {
        if entry.verb == verb {
          AllowedInMore(routes[..i + 1], routes, verb, path);
          pathMatches := false;
          break;
        }
        pathMatches := true;
      }
    }
    assert routes[..|routes|] == routes;
  }

  class Router<Handler> {
    var registeredRoutes: seq<Route>
    var notFound: Option<Handler>
    var methodNA: Option<Handler>
    var catchAllRegistered: bool

    constructor ()
      ensures registeredRoutes == [] && notFound.None? && methodNA.None? && !catchAllRegistered
    {
      registeredRoutes, notFound, methodNA, catchAllRegistered := [], None, None, false;
    }

    method Handle(verb: string, pattern: string) returns (err: Option<PatternError>)
      modifies this`registeredRoutes
      ensures err.None? <==> Alternates(Braces(pattern))
      ensures registeredRoutes == old(registeredRoutes) +
                                  (if err.None? then Registered([Route(verb, pattern)]) else [])
    {
      err := ValidatePattern(pattern);
      if err.Some? {
        return;
      }
      var fiberPattern := TranslatePattern(pattern, "fiber");
      registeredRoutes := registeredRoutes + [Route(verb, fiberPattern)];
    }

    method NotFound(handler: Handler)
      modifies this`notFound, this`catchAllRegistered
      ensures notFound == Some(handler) && catchAllRegistered
    {
      notFound := Some(handler);
      catchAllRegistered := true;
    }

    method MethodNotAllowed(handler: Handler)
      modifies this`methodNA, this`catchAllRegistered
      ensures methodNA == Some(handler) && catchAllRegistered
    {
      methodNA := Some(handler);
      catchAllRegistered := true;
    }

    /**
      What the catch-all hands the request to, after the chain ended with `status` (or failed).
      The 405 handler is chosen exactly when some route matches the path and none with this method.
     */
    method CatchAll(failed: bool, status: int, verb: string, path: string) returns (handler: Option<Handler>)
      ensures failed || status != 404 ==> handler.None?
      ensures !failed && status == 404 ==>
                handler == if WrongMethod(registeredRoutes, verb, path) && methodNA.Some? then methodNA else notFound
    {
      if failed {
        return None;
      }
      if status != 404 {
        return None;
      }
      var pathMatches := FindWrongMethod(registeredRoutes, verb, path);
      if pathMatches && methodNA.Some? {
        handler := methodNA;
      } else if notFound.Some? {
        handler := notFound;
      } else {
        handler := None;
      }
    }
  }

  /** The canonical patterns decide 405 as the translated ones do. */
  predicate CanonicalWrongMethod(routes: seq<Route>, verb: string, path: string) {
    && (exists r :: r in routes && CanonicalMatches(r.pattern, path))
    && !(exists r :: r in routes && CanonicalMatches(r.pattern, path) && r.verb == verb)
  }

  /**
    Main result, for all registered routes: the decision is the one the canonical patterns make,
    and the order or repetition of registrations does not enter it.
   */
  lemma WrongMethodIsCanonical(routes: seq<Route>, others: seq<Route>, verb: string, path: string)
    requires forall r :: r in routes ==> Alternates(Braces(r.pattern))
    requires forall r :: r in routes <==> r in others
    ensures WrongMethod(Registered(routes), verb, path) <==> CanonicalWrongMethod(others, verb, path)
  {
    var fiber := Registered(routes);
    forall r | r in routes
      ensures Route(r.verb, Translate(r.pattern)) in fiber
      ensures Matches(Translate(r.pattern), path) <==> CanonicalMatches(r.pattern, path)
    {
      TranslatedMatchesCanonical(r.pattern, path);
      var i :| 0 <= i < |routes| && routes[i] == r;
      assert fiber[i] == Route(r.verb, Translate(r.pattern));
    }
    forall f | f in fiber
      ensures exists r :: r in routes && f == Route(r.verb, Translate(r.pattern))
    {
      var i :| 0 <= i < |fiber| && fiber[i] == f;
      assert routes[i] in routes;
    }
  }
}
