/** Which API calls a list of skip patterns selects (handlers/skip_api_call.go). */
module SkipApi {
  import opened Wrappers
  import opened PathSegments

  /** White space as unicode.IsSpace has it. */
  predicate IsSpace(c: char) {
    var n := c as int;
    || 9 <= n <= 13 || n in {32, 0x85, 0xA0, 0x1680, 0x2028, 0x2029, 0x202F, 0x205F, 0x3000}
    || 0x2000 <= n <= 0x200A
  }

  function TrimLeft(s: string): string {
    if s != "" && IsSpace(s[0]) then TrimLeft(s[1..]) else s
  }

  function TrimRight(s: string, drop: char -> bool): string {
    if s != "" && drop(s[|s| - 1]) then TrimRight(s[..|s| - 1], drop) else s
  }

  function TrimSpace(s: string): string {
    TrimRight(TrimLeft(s), IsSpace)
  }

  function TrimSlashes(s: string): string {
    TrimRight(s, c => c == '/')
  }

  function DropSlash(s: string): string {
    if s != "" && s[0] == '/' then s[1..] else s
  }

  function NormalizePath(p: string): string {
    TrimSlashes(DropSlash(TrimSpace(p)))
  }

  lemma {:induction false} TrimSlashesKeepsAPrefix(s: string)
    ensures TrimSlashes(s) <= s
    ensures TrimSlashes(s) == "" <==> forall c :: c in s ==> c == '/'
    decreases |s|
  {
    if s != "" {
      var front, last := s[..|s| - 1], s[|s| - 1];
      TrimSlashesKeepsAPrefix(front);
      assert s == front + [last];
      assert last in s && forall c :: c in front ==> c in s;
    }
  }

  lemma TrimSlashesOfMore(s: string)
    ensures TrimSlashes(s + "/") == TrimSlashes(s)
  {
    assert (s + "/")[..|s|] == s;
  }

  lemma {:induction false} TrimSlashesOfTail(s: string)
    requires s != "" && TrimSlashes(s) != ""
    ensures TrimSlashes(s) == [s[0]] + TrimSlashes(s[1..])
    decreases |s|
  {
    var last := s[|s| - 1];
    if |s| == 1 {
      assert s[..0] == "" && s[1..] == "";
    } else if last == '/' {
      TrimSlashesOfTail(s[..|s| - 1]);
      assert s[1..][..|s| - 2] == s[..|s| - 1][1..];
    }
  }

  predicate AllSpace(s: string) {
    forall c :: c in s ==> IsSpace(c)
  }

  predicate AllSlashes(s: string) {
    forall c :: c in s ==> c == '/'
  }

  /** Without its white space at the end. */
  function TrimEnd(s: string): string {
    TrimRight(s, IsSpace)
  }

  lemma {:induction false} TrimEndIsAPrefix(s: string)
    ensures TrimEnd(s) <= s
    ensures TrimEnd(s) == "" || !IsSpace(TrimEnd(s)[|TrimEnd(s)| - 1])
    ensures TrimEnd(s) == "" <==> AllSpace(s)
    ensures s != "" && IsSpace(s[|s| - 1]) ==> |TrimEnd(s)| < |s|
    decreases |s|
  {
    if s != "" {
      var front, last := s[..|s| - 1], s[|s| - 1];
      TrimEndIsAPrefix(front);
      assert s == front + [last];
      assert last in s && forall c :: c in front ==> c in s;
    }
  }

  lemma {:induction false} TrimEndOfTail(s: string)
    requires s != "" && !AllSpace(s[1..])
    ensures TrimEnd(s) == [s[0]] + TrimEnd(s[1..])
    decreases |s|
  {
    var rest := s[1..];
    TrimEndIsAPrefix(rest);
    if IsSpace(s[|s| - 1]) {
      var front := s[..|s| - 1];
      assert front[1..] == rest[..|rest| - 1];
      assert rest == front[1..] + [s[|s| - 1]];
      TrimEndOfTail(front);
    } else {
      assert s == [s[0]] + rest;
    }
  }

  lemma {:induction false} TrimLeftIsASuffix(s: string)
    ensures |TrimLeft(s)| <= |s| && TrimLeft(s) == s[|s| - |TrimLeft(s)|..]
    ensures TrimLeft(s) == "" || !IsSpace(TrimLeft(s)[0])
    ensures TrimLeft(s) == "" <==> AllSpace(s)
  {
    if s != "" {
      TrimLeftIsASuffix(s[1..]);
      assert s == [s[0]] + s[1..];
      assert s[0] in s && forall c :: c in s[1..] ==> c in s;
    }
  }

  /** Trimming the slashes of a proper suffix of a text with something else in it gives less. */
  lemma {:induction false} TrimSlashesOfSuffix(s: string, n: nat)
    requires 0 < n <= |s| && TrimSlashes(s) != ""
    ensures |TrimSlashes(s[n..])| < |TrimSlashes(s)|
    decreases n
  {
    TrimSlashesOfTail(s);
    if n > 1 {
      assert s[1..][n - 1..] == s[n..];
      if TrimSlashes(s[1..]) != "" {
        TrimSlashesOfSuffix(s[1..], n - 1);
      } else {
        TrimSlashesKeepsAPrefix(s[1..]);
        TrimSlashesKeepsAPrefix(s[n..]);
        assert forall c :: c in s[n..] ==> c in s[1..];
      }
    }
  }

  lemma SlashFirst(s: string)
    ensures NormalizePath("/" + s) == TrimSlashes(if AllSpace(s) then "" else TrimEnd(s))
  {
    var t := "/" + s;
    assert t[1..] == s;
    TrimEndIsAPrefix(t);
    if AllSpace(s) {
      assert t[0] in t;
      TrimEndIsAPrefix(s);
      AllSpaceTrims(s);
    } else {
      TrimEndOfTail(t);
    }
  }

  lemma {:induction false} AllSpaceTrims(s: string)
    requires AllSpace(s)
    ensures TrimEnd("/" + s) == "/"
    decreases |s|
  {
    var t := "/" + s;
    if s != "" {
      assert s[|s| - 1] in s && forall c :: c in s[..|s| - 1] ==> c in s;
      assert t[..|t| - 1] == "/" + s[..|s| - 1];
      AllSpaceTrims(s[..|s| - 1]);
    }
  }

  lemma {:induction false} TrimEndOfMore(front: string, s: string)
    requires !AllSpace(s)
    ensures TrimEnd(front + s) == front + TrimEnd(s)
  {
    if front == "" {
      assert front + s == s;
    } else {
      var rest := front[1..] + s;
      assert (front + s)[1..] == rest;
      assert forall c :: c in s ==> c in rest;
      TrimEndOfMore(front[1..], s);
      TrimEndOfTail(front + s);
    }
  }

  /** After leading white space, what is left of the text is shorter than with a slash in front. */
  lemma SpaceFirst(s: string, t: string, n: nat)
    requires 0 < n < |s| && IsSpace(s[0]) && !AllSpace(s[n..]) && t == TrimEnd(s)
    requires TrimSpace(s) == TrimEnd(s[n..])
    ensures TrimSlashes(t) != NormalizePath(s) && !AllSlashes(t)
  {
    assert s == s[..n] + s[n..];
    TrimEndOfMore(s[..n], s[n..]);
    TrimEndIsAPrefix(s[n..]);
    assert t[0] == s[0] && t[0] in t && t[n..] == TrimEnd(s[n..]);
    TrimSlashesKeepsAPrefix(t);
    if t[n] == '/' {
      assert t[n..][1..] == t[n + 1..];
      TrimSlashesOfSuffix(t, n + 1);
    } else {
      TrimSlashesOfSuffix(t, n);
    }
  }

  /**
    A leading slash does not matter exactly when the text is nothing but white space, or begins
    with neither a space nor another slash, or is nothing but slashes before its final space.
   */
  lemma OneLeadingSlashIsStripped(s: string)
    ensures NormalizePath("/" + s) == NormalizePath(s) <==>
            || AllSpace(s)
            || (!IsSpace(s[0]) && s[0] != '/')
            || AllSlashes(TrimEnd(s))
  {
    var t, v := TrimEnd(s), TrimLeft(s);
    SlashFirst(s);
    TrimEndIsAPrefix(s);
    TrimLeftIsASuffix(s);
    TrimSlashesKeepsAPrefix(t);
    if AllSpace(s) {
      assert v == "";
    } else if IsSpace(s[0]) {
      SpaceFirst(s, t, |s| - |v|);
    } else if s[0] == '/' {
      TrimSlashesKeepsAPrefix(t[1..]);
      if AllSlashes(t) {
        assert forall c :: c in t[1..] ==> c in t;
      } else {
        TrimSlashesOfSuffix(t, 1);
      }
    }
  }

  lemma {:induction false} TrimLeftOfMore(s: string, last: string)
    requires !AllSpace(s)
    ensures TrimLeft(s + last) == TrimLeft(s) + last
  {
    assert s == [s[0]] + s[1..];
    if IsSpace(s[0]) {
      assert (s + last)[1..] == s[1..] + last;
      TrimLeftOfMore(s[1..], last);
    }
  }

  lemma {:induction false} TrimLeftOfSpace(s: string)
    requires AllSpace(s)
    ensures TrimLeft(s + "/") == "/"
  {
    if s == "" {
      assert s + "/" == "/";
    } else {
      assert s[0] in s && forall c :: c in s[1..] ==> c in s;
      assert (s + "/")[1..] == s[1..] + "/";
      TrimLeftOfSpace(s[1..]);
    }
  }

  lemma TrailingSlash(v: string)
    requires v != "" && !IsSpace(v[0])
    ensures TrimSlashes(DropSlash(v + "/")) == TrimSlashes(DropSlash(TrimEnd(v))) <==> !IsSpace(v[|v| - 1])
  {
    var d := DropSlash(v);
    assert DropSlash(v + "/") == d + "/";
    TrimSlashesOfMore(d);
    TrimEndIsAPrefix(v);
    if IsSpace(v[|v| - 1]) {
      assert v[0] in v && TrimEnd(v) != "";
      TrimSlashesKeepsAPrefix(DropSlash(TrimEnd(v)));
    }
  }

  /** A trailing slash does not matter exactly when no white space stands before it, or nothing else does. */
  lemma TrailingSlashesAreStripped(s: string)
    ensures NormalizePath(s + "/") == NormalizePath(s) <==> AllSpace(s) || !IsSpace(s[|s| - 1])
  {
    TrimLeftIsASuffix(s);
    var v := TrimLeft(s);
    if AllSpace(s) {
      TrimLeftOfSpace(s);
    } else {
      TrimLeftOfMore(s, "/");
      TrailingSlash(v);
      assert TrimSpace(s + "/") == v + "/";
    }
  }

  lemma {:induction false} TrimLeftOfPadded(pad: string, s: string)
    requires AllSpace(pad) && s != "" && !IsSpace(s[0])
    ensures TrimLeft(pad + s) == s
  {
    if pad == "" {
      assert pad + s == s;
    } else {
      assert pad[0] in pad && forall c :: c in pad[1..] ==> c in pad;
      assert (pad + s)[1..] == pad[1..] + s;
      TrimLeftOfPadded(pad[1..], s);
    }
  }

  lemma {:induction false} TrimRightOfPadded(s: string, pad: string, drop: char -> bool)
    requires s != "" && !drop(s[|s| - 1]) && forall c :: c in pad ==> drop(c)
    ensures TrimRight(s + pad, drop) == s
    decreases |pad|
  {
    if pad == "" {
      assert s + pad == s;
    } else {
      var front := pad[..|pad| - 1];
      assert pad[|pad| - 1] in pad && forall c :: c in front ==> c in pad;
      assert (s + pad)[..|s + pad| - 1] == s + front;
      TrimRightOfPadded(s, front, drop);
    }
  }

  /** Main result: what normalizing leaves of a text, between its white space and its outer slashes. */
  lemma NormalizesExactly(before: string, lead: string, path: string, slashes: string, after: string)
    requires AllSpace(before) && AllSpace(after) && lead in {"", "/"} && AllSlashes(slashes)
    requires path != "" && !IsSpace(path[0]) && path[0] != '/'
    requires !IsSpace(path[|path| - 1]) && path[|path| - 1] != '/'
    ensures NormalizePath(before + ((lead + (path + slashes)) + after)) == path
  {
    var core := lead + (path + slashes);
    assert core != "" && !IsSpace(core[0]) && !IsSpace(core[|core| - 1]) by {
      if slashes != "" {
        assert slashes[|slashes| - 1] in slashes;
      }
    }
    TrimLeftOfPadded(before, core + after);
    TrimRightOfPadded(core, after, IsSpace);
    assert TrimSpace(before + (core + after)) == core;
    assert DropSlash(core) == path + slashes;
    TrimRightOfPadded(path, slashes, c => c == '/');
    SlashTrim(path + slashes);
  }

  lemma {:induction false} SlashTrim(s: string)
    ensures TrimSlashes(s) == TrimRight(s, c => c == '/')
    decreases |s|
  {
    if s != "" {
      SlashTrim(s[..|s| - 1]);
    }
  }

  predicate EndpointMatches(endpoint: string, pattern: string) {
    endpoint == pattern || pattern + "/" <= endpoint
  }

  /** The endpoint matches exactly if the pattern's segments begin the endpoint's. */
  lemma EndpointMatchesSegments(endpoint: string, pattern: string)
    ensures EndpointMatches(endpoint, pattern) <==> Split(pattern, '/') <= Split(endpoint, '/')
  {
    PrefixIsSegmentPrefix(endpoint, pattern, '/');
  }

  /** strings.EqualFold: `fold` sends a character to the one that stands for all its cases. */
  predicate EqualFold(fold: char -> char, a: string, b: string) {
    |a| == |b| && forall i :: 0 <= i < |a| ==> fold(a[i]) == fold(b[i])
  }

  /**
    What the pattern grammar means: "endpoint" or "endpoint:METHOD", the endpoint not empty and
    its segments the first of the call's, the method equal up to case.
   */
  predicate Selects(fold: char -> char, raw: string, endpoint: string, verb: string) {
    var parts := Split(TrimSpace(raw), ':');
    var wanted := NormalizePath(parts[0]);
    && |parts| <= 2
    && wanted != ""
    && Split(wanted, '/') <= Split(NormalizePath(endpoint), '/')
    && (|parts| == 2 ==> EqualFold(fold, parts[1], verb))
  }

  function Count(s: string, c: char): nat {
    if s == "" then 0 else (if s[0] == c then 1 else 0) + Count(s[1..], c)
  }

  /** Counting and cutting at the first separator is splitting. */
  lemma {:induction false} CutIsSplit(s: string, c: char)
    ensures |Split(s, c)| == Count(s, c) + 1
    ensures Count(s, c) == 0 <==> Index(s, c).None?
    ensures Count(s, c) == 0 ==> Split(s, c) == [s]
    ensures Count(s, c) > 0 ==> Split(s, c)[0] == s[..Index(s, c).value]
    ensures Count(s, c) == 1 ==> Split(s, c)[1] == s[Index(s, c).value + 1..]
  {
    if s != "" {
      var rest := s[1..];
      CutIsSplit(rest, c);
      if s[0] == c {
        assert Index(s, c) == Some(0) && Split(s, c) == [""] + Split(rest, c);
      } else if Count(rest, c) == 0 {
        assert s == [s[0]] + rest && Index(s, c) == None;
      } else {
        var k := Index(rest, c).value;
        assert Index(s, c) == Some(k + 1);
        assert s[..k + 1] == [s[0]] + rest[..k];
        assert s[k + 2..] == rest[k + 1..];
      }
    }
  }

  /** What the loop below tests, branch by branch, is what the grammar means. */
  lemma SelectsByCut(fold: char -> char, raw: string, endpoint: string, verb: string, pattern: string)
    requires pattern == TrimSpace(raw)
    ensures var idx := Index(pattern, ':');
            var wanted := NormalizePath(if idx.Some? then pattern[..idx.value] else pattern);
            Selects(fold, raw, endpoint, verb)
            <==> && Count(pattern, ':') <= 1
                 && wanted != ""
                 && EndpointMatches(NormalizePath(endpoint), wanted)
                 && (idx.Some? ==> EqualFold(fold, pattern[idx.value + 1..], verb))
  {
    var idx := Index(pattern, ':');
    CutIsSplit(pattern, ':');
    EndpointMatchesSegments(NormalizePath(endpoint),
                            NormalizePath(if idx.Some? then pattern[..idx.value] else pattern));
  }

  /** Main result: the call is skipped exactly if some pattern selects it, in whatever order. */
  method ShouldSkipAPICall(fold: char -> char, endpoint: string, verb: string, skipPatterns: seq<string>)
    returns (skip: bool)
    ensures skip <==> exists raw :: raw in skipPatterns && Selects(fold, raw, endpoint, verb)
  {
    var normalizedEndpoint := NormalizePath(endpoint);
    for n := 0 to |skipPatterns|
      invariant forall k :: 0 <= k < n ==> !Selects(fold, skipPatterns[k], endpoint, verb)
    {
      var raw := skipPatterns[n];
      var pattern := TrimSpace(raw);
      SelectsByCut(fold, raw, endpoint, verb, pattern);
      if pattern == "" {
        assert Index(pattern, ':').None? && NormalizePath(pattern) == "";
        continue;
      }
      if Count(pattern, ':') > 1 {
        continue;
      }
      var patternEndpoint, patternMethod, methodConstrained := pattern, "", false;
      var idx := Index(pattern, ':');
      if idx.Some? {
        patternEndpoint := pattern[..idx.value];
        patternMethod := pattern[idx.value + 1..];
        methodConstrained := true;
      }
      patternEndpoint := NormalizePath(patternEndpoint);
      if patternEndpoint == "" {
        continue;
      }
      if !EndpointMatches(normalizedEndpoint, patternEndpoint) {
        continue;
      }
      if !methodConstrained {
        return true;
      }
      if EqualFold(fold, patternMethod, verb) {
        return true;
      }
    }
    return false;
  }
}
