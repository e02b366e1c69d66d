/** Route patterns (v2/routing/contracts.go) and the group prefixes of v2/libNetHttp/router.go. */
module Routing {
  import opened Wrappers
  import opened PathSegments

  predicate IsBrace(c: char) {
    c == '{' || c == '}'
  }

  /** The braces of a pattern, in order. */
  function Braces(s: string): string {
    if s == "" then ""
    else Braces(s[..|s| - 1]) + (if IsBrace(s[|s| - 1]) then [s[|s| - 1]] else "")
  }

  /** Open, close, open, close, ending closed. */
  predicate Alternates(b: string) {
    |b| % 2 == 0 && forall i :: 0 <= i < |b| ==> b[i] == if i % 2 == 0 then '{' else '}'
  }

  lemma {:induction false} BracesOfPrefix(s: string, i: nat)
    requires i <= |s|
    ensures Braces(s[..i]) <= Braces(s)
    decreases |s| - i
  {
    if i == |s| {
      assert s[..i] == s;
    } else {
      assert s[..i + 1][..i] == s[..i];
      BracesOfPrefix(s, i + 1);
    }
  }

  /** Where an error is: a position in bytes, as Go counts it. */
  datatype PatternError = Nested(at: nat) | UnmatchedClose(at: nat) | Unclosed

  /** How many bytes the characters take in UTF-8. */
  function Utf8Length(s: string): nat {
    if s == "" then 0
    else
      var n := s[|s| - 1] as int;
      Utf8Length(s[..|s| - 1]) + (if n < 0x80 then 1 else if n < 0x800 then 2 else if n < 0x1_0000 then 3 else 4)
  }

  /** The character at this byte position is c, and comes after `braces`. */
  predicate StandsAt(pattern: string, at: nat, c: char, braces: string) {
    exists i :: 0 <= i < |pattern| && pattern[i] == c
                && at == Utf8Length(pattern[..i]) && Braces(pattern[..i]) == braces
  }

  lemma OneMoreCharacter(s: string, i: nat)
    requires i < |s|
    ensures Braces(s[..i + 1]) == Braces(s[..i]) + (if IsBrace(s[i]) then [s[i]] else "")
    ensures Utf8Length(s[..i + 1]) == Utf8Length(s[..i]) + Utf8Length([s[i]])
  {
    assert s[..i + 1][..i] == s[..i];
    assert [s[i]][..0] == "";
  }

  /** Accepts exactly the patterns whose braces alternate; an error tells the first offending brace. */
  method ValidatePattern(pattern: string) returns (err: Option<PatternError>)
    ensures err.None? <==> Alternates(Braces(pattern))
    ensures err.Some? && err.value.Nested? ==>
              exists b :: StandsAt(pattern, err.value.at, '{', b + "{") && Alternates(b)
    ensures err.Some? && err.value.UnmatchedClose? ==>
              exists b :: StandsAt(pattern, err.value.at, '}', b) && Alternates(b)
    ensures err == Some(Unclosed) ==> exists b :: Braces(pattern) == b + "{" && Alternates(b)
  {
    var depth, at := 0, 0;
    ghost var closed := "";
    for i := 0 to |pattern|
      invariant 0 <= depth <= 1 && at == Utf8Length(pattern[..i])
      invariant Alternates(closed) && Braces(pattern[..i]) == closed + (if depth == 1 then "{" else "")
    {
      OneMoreCharacter(pattern, i);
      BracesOfPrefix(pattern, i + 1);
      if pattern[i] == '{' {
        if depth > 0 {
          DoubledOpen(closed, Braces(pattern));
          assert StandsAt(pattern, at, '{', closed + "{");
          return Some(Nested(at));
        }
        depth := depth + 1;
      } else if pattern[i] == '}' {
        if depth == 0 {
          LooseClose(closed, Braces(pattern));
          assert StandsAt(pattern, at, '}', closed);
          return Some(UnmatchedClose(at));
        }
        depth := depth - 1;
        ghost var was := closed;
        closed := was + "{}";
        assert (was + "{") + "}" == closed;
      }
      at := at + Utf8Length([pattern[i]]);
    }
    assert pattern[..|pattern|] == pattern;
    if depth > 0 {
      return Some(Unclosed);
    }
    return None;
  }

  lemma DoubledOpen(closed: string, braces: string)
    requires Alternates(closed) && (closed + "{") + "{" <= braces
    ensures !Alternates(braces)
  {
    assert braces[|closed| + 1] == '{';
  }

  lemma LooseClose(closed: string, braces: string)
    requires Alternates(closed) && closed + "}" <= braces
    ensures !Alternates(braces)
  {
    assert braces[|closed|] == '}';
  }

  // ----- TranslatePattern -----

  function Opens(s: string): nat {
    if s == "" then 0 else (if s[0] == '{' then 1 else 0) + Opens(s[1..])
  }

  lemma {:induction false} OpensSplit(a: string, b: string)
    ensures Opens(a + b) == Opens(a) + Opens(b)
  {
    if a == "" {
      assert a + b == b;
    } else {
      assert (a + b)[1..] == a[1..] + b;
      OpensSplit(a[1..], b);
    }
  }

  lemma NotInTail(s: string, c: char)
    requires s != "" && c !in s
    ensures c !in s[1..]
  {
    forall k | 0 <= k < |s| - 1
      ensures s[1..][k] != c
    {
      assert s[1..][k] == s[k + 1] && s[k + 1] in s;
    }
  }

  /** The first parameter: its brace positions, if both are there. */
  function FirstParam(s: string): (r: Option<(nat, nat)>)
    ensures r.Some? ==>
              var (i, j) := r.value;
              && i < j < |s| && s[i] == '{' && s[j] == '}'
              && '{' !in s[..i] && '}' !in s[i + 1..j]
    ensures r.None? ==>
              '{' !in s || exists i :: 0 <= i < |s| && s[i] == '{' && '{' !in s[..i] && '}' !in s[i + 1..]
  {
    match Index(s, '{')
    case None => None
    case Some(i) =>
      match Index(s[i..], '}')
      case None =>
        NotInTail(s[i..], '}');
        assert s[i..][1..] == s[i + 1..];
        None
      case Some(j) =>
        NotInTail(s[i..][..j], '}');
        assert s[i..][..j][1..] == s[i + 1..i + j];
        Some((i, i + j))
  }

  function Splice(s: string, i: nat, j: nat): string
    requires i < j < |s|
  {
    s[..i] + ":" + s[i + 1..j] + s[j + 1..]
  }

  lemma SpliceParts(s: string, i: nat, j: nat)
    requires i < j < |s| && s[i] == '{' && s[j] == '}'
    ensures s == s[..i] + ("{" + (s[i + 1..j] + ("}" + s[j + 1..])))
    ensures Splice(s, i, j) == s[..i] + (":" + (s[i + 1..j] + s[j + 1..]))
  {
  }

  lemma OneOpenLess(a: string, b: string, c: string)
    ensures Opens(a + (":" + (b + c))) == Opens(a + ("{" + (b + ("}" + c)))) - 1
  {
    var x, y, z := "{" + (b + ("}" + c)), ":" + (b + c), "}" + c;
    assert x[1..] == b + z && y[1..] == b + c && z[1..] == c;
    OpensSplit(a, x);
    OpensSplit(a, y);
    OpensSplit(b, z);
    OpensSplit(b, c);
  }

  lemma SpliceRemovesOneOpen(s: string, i: nat, j: nat)
    requires i < j < |s| && s[i] == '{' && s[j] == '}'
    ensures Opens(Splice(s, i, j)) == Opens(s) - 1
  {
    SpliceParts(s, i, j);
    OneOpenLess(s[..i], s[i + 1..j], s[j + 1..]);
  }

  /** The splice loop; it ends on every input because open braces get fewer. */
  function Translate(s: string): string
    decreases Opens(s)
  {
    match FirstParam(s)
    case None => s
    case Some((i, j)) =>
      SpliceRemovesOneOpen(s, i, j);
      Translate(Splice(s, i, j))
  }

  /** One turn of the loop: what it makes of s translates as s does, with fewer open braces. */
  lemma OneTurn(s: string, start: nat, j: nat, t: string)
    requires Index(s, '{') == Some(start) && start <= j && Index(s[start..], '}') == Some(j - start)
    requires t == Splice(s, start, j)
    ensures Translate(t) == Translate(s) && Opens(t) < Opens(s)
  {
    assert FirstParam(s) == Some((start, j));
    SpliceRemovesOneOpen(s, start, j);
  }

  lemma NoMoreTurns(s: string)
    requires FirstParam(s).None?
    ensures Translate(s) == s
  {
  }

  method TranslatePattern(pattern: string, target: string) returns (result: string)
    ensures result == if target in {"gin", "fiber"} then Translate(pattern) else pattern
  {
    result := pattern;
    if target != "gin" && target != "fiber" {
      return;
    }
    while true
      invariant Translate(result) == Translate(pattern)
      decreases Opens(result)
    {
      var start := Index(result, '{');
      if start.None? {
        break;
      }
      var end := Index(result[start.value..], '}');
      if end.None? {
        break;
      }
      var j := end.value + start.value;
      var param := result[start.value + 1..j];
      ghost var was := result;
      result := result[..start.value] + ":" + param + result[j + 1..];
      OneTurn(was, start.value, j, result);
    }
    assert FirstParam(result).None?;
    NoMoreTurns(result);
  }

  /** Every open brace becomes a colon and every closing brace goes. */
  function OnePass(s: string): string {
    if s == "" then ""
    else (if s[0] == '{' then ":" else if s[0] == '}' then "" else [s[0]]) + OnePass(s[1..])
  }

  /** Every closing brace has an open one before it, and all are closed; they may nest. */
  predicate Balanced(s: string, depth: nat)
    decreases |s|
  {
    if s == "" then depth == 0
    else if s[0] == '{' then Balanced(s[1..], depth + 1)
    else if s[0] == '}' then depth > 0 && Balanced(s[1..], depth - 1)
    else Balanced(s[1..], depth)
  }

  lemma {:induction false} OnePassSplit(a: string, b: string)
    ensures OnePass(a + b) == OnePass(a) + OnePass(b)
  {
    if a == "" {
      assert a + b == b;
    } else {
      assert (a + b)[1..] == a[1..] + b;
      OnePassSplit(a[1..], b);
    }
  }

  lemma {:induction false} BalancedWithoutPair(b: string, c: string, depth: nat)
    requires '}' !in b
    ensures Balanced(b + ("}" + c), depth + 1) <==> Balanced(b + c, depth)
    decreases |b|
  {
    if b == "" {
      assert b + ("}" + c) == "}" + c && ("}" + c)[1..] == c && b + c == c;
    } else {
      assert (b + ("}" + c))[1..] == b[1..] + ("}" + c) && (b + c)[1..] == b[1..] + c;
      assert b[0] in b && forall x :: x in b[1..] ==> x in b;
      BalancedWithoutPair(b[1..], c, if b[0] == '{' then depth + 1 else depth);
    }
  }

  lemma {:induction false} BalancedAfter(a: string, x: string, y: string, depth: nat)
    requires forall d: nat :: Balanced(x, d) <==> Balanced(y, d)
    ensures Balanced(a + x, depth) <==> Balanced(a + y, depth)
    decreases |a|
  {
    if a == "" {
      assert a + x == x && a + y == y;
    } else {
      assert (a + x)[1..] == a[1..] + x && (a + y)[1..] == a[1..] + y;
      if a[0] == '{' {
        BalancedAfter(a[1..], x, y, depth + 1);
      } else if a[0] == '}' {
        if depth > 0 {
          BalancedAfter(a[1..], x, y, depth - 1);
        }
      } else {
        BalancedAfter(a[1..], x, y, depth);
      }
    }
  }

  lemma SpliceKeepsOnePass(a: string, b: string, c: string)
    ensures OnePass(a + (":" + (b + c))) == OnePass(a + ("{" + (b + ("}" + c))))
  {
    var x, y := "{" + (b + ("}" + c)), ":" + (b + c);
    assert x[1..] == b + ("}" + c) && y[1..] == b + c && ("}" + c)[1..] == c;
    OnePassSplit(a, x);
    OnePassSplit(a, y);
    OnePassSplit(b, "}" + c);
    OnePassSplit(b, c);
    assert OnePass("}" + c) == "" + OnePass(c) == OnePass(c);
  }

  lemma SpliceKeepsBalance(a: string, b: string, c: string)
    requires '}' !in b
    ensures Balanced(a + (":" + (b + c)), 0) <==> Balanced(a + ("{" + (b + ("}" + c))), 0)
  {
    var x, y := "{" + (b + ("}" + c)), ":" + (b + c);
    forall d: nat
      ensures Balanced(x, d) <==> Balanced(y, d)
    {
      assert x[1..] == b + ("}" + c) && y[1..] == b + c;
      BalancedWithoutPair(b, c, d);
    }
    BalancedAfter(a, x, y, 0);
  }

  lemma SpliceKeeps(s: string, i: nat, j: nat, t: string)
    requires i < j < |s| && s[i] == '{' && s[j] == '}' && '}' !in s[i + 1..j]
    requires t == Splice(s, i, j)
    ensures OnePass(t) == OnePass(s)
    ensures Balanced(t, 0) <==> Balanced(s, 0)
  {
    var a, b, c := s[..i], s[i + 1..j], s[j + 1..];
    SpliceParts(s, i, j);
    SpliceKeepsOnePass(a, b, c);
    SpliceKeepsBalance(a, b, c);
  }

  lemma {:induction false} OnePassHasNoBraces(s: string)
    ensures '{' !in OnePass(s) && '}' !in OnePass(s)
    ensures '{' !in s && '}' !in s ==> OnePass(s) == s
  {
    if s != "" {
      OnePassHasNoBraces(s[1..]);
      assert s == [s[0]] + s[1..];
    }
  }

  lemma {:induction false} BalancedWithoutCloses(s: string, depth: nat)
    requires '}' !in s
    ensures Balanced(s, depth) <==> depth == 0 && '{' !in s
    decreases |s|
  {
    if s != "" {
      assert s[0] in s && forall c :: c in s[1..] ==> c in s;
      assert s == [s[0]] + s[1..];
      BalancedWithoutCloses(s[1..], if s[0] == '{' then depth + 1 else depth);
    }
  }

  lemma {:induction false} BalancedWithoutOpens(a: string, x: string)
    requires '{' !in a
    ensures Balanced(a + x, 0) <==> '}' !in a && Balanced(x, 0)
    decreases |a|
  {
    if a == "" {
      assert a + x == x;
    } else {
      assert (a + x)[1..] == a[1..] + x;
      assert a == [a[0]] + a[1..];
      if a[0] != '}' {
        BalancedWithoutOpens(a[1..], x);
      }
    }
  }

  lemma StoppedAtOpen(s: string, a: string, rest: string)
    requires s == a + ("{" + rest) && '{' !in a && '}' !in rest
    ensures s != OnePass(s) && !Balanced(s, 0)
  {
    assert s[|a|] == '{';
    OnePassHasNoBraces(s);
    assert ("{" + rest)[1..] == rest;
    BalancedWithoutOpens(a, "{" + rest);
    BalancedWithoutCloses(rest, 1);
  }

  lemma StoppedWithoutOpens(s: string)
    requires '{' !in s
    ensures s == OnePass(s) <==> Balanced(s, 0)
  {
    OnePassHasNoBraces(s);
    BalancedWithoutOpens(s, "");
    assert s + "" == s;
  }

  /** Where the loop stops, the text is what the one-pass map gives exactly if it is balanced. */
  lemma StoppedExactly(s: string)
    requires FirstParam(s).None?
    ensures s == OnePass(s) <==> Balanced(s, 0)
  {
    if '{' !in s {
      StoppedWithoutOpens(s);
    } else {
      var i :| 0 <= i < |s| && s[i] == '{' && '{' !in s[..i] && '}' !in s[i + 1..];
      assert s == s[..i] + ("{" + s[i + 1..]);
      StoppedAtOpen(s, s[..i], s[i + 1..]);
    }
  }

  /**
    Main result, for every string. The splice loop equals the one-pass map if and only if the
    braces are balanced.
   */
  lemma {:induction false} TranslateIsOnePassExactly(s: string)
    ensures Translate(s) == OnePass(s) <==> Balanced(s, 0)
    decreases Opens(s)
  {
    match FirstParam(s)
    case None => StoppedExactly(s);
    case Some((i, j)) =>
      SpliceRemovesOneOpen(s, i, j);
      SpliceKeeps(s, i, j, Splice(s, i, j));
      TranslateIsOnePassExactly(Splice(s, i, j));
  }

  lemma {:induction false} AlternatingIsBalanced(s: string, depth: nat)
    requires depth <= 1
    requires var b := Braces(s);
             |b| % 2 == depth && forall k :: 0 <= k < |b| ==> b[k] == if k % 2 == depth then '{' else '}'
    ensures Balanced(s, depth)
    decreases |s|
  {
    if s != "" {
      BracesOfTail(s);
      var b, rest := Braces(s), Braces(s[1..]);
      if IsBrace(s[0]) {
        assert b[0] == s[0] && rest == b[1..];
        AlternatingIsBalanced(s[1..], 1 - depth);
      } else {
        assert b == rest;
        AlternatingIsBalanced(s[1..], depth);
      }
    }
  }

  lemma {:induction false} BracesOfTail(s: string)
    requires s != ""
    ensures Braces(s) == (if IsBrace(s[0]) then [s[0]] else "") + Braces(s[1..])
    decreases |s|
  {
    if |s| == 1 {
      assert s[..0] == "" && s[1..] == "";
    } else {
      var init := s[..|s| - 1];
      BracesOfTail(init);
      assert init[1..] == s[1..][..|s[1..]| - 1];
    }
  }

  /** So on every pattern that validates, translation is the one-pass map. */
  lemma ValidPatternsTranslateInOnePass(s: string)
    requires Alternates(Braces(s))
    ensures Translate(s) == OnePass(s)
  {
    AlternatingIsBalanced(s, 0);
    TranslateIsOnePassExactly(s);
  }

  // ----- JoinPath and group prefixes -----

  function Slashed(s: string): string
    requires s != ""
  {
    if s[|s| - 1] != '/' then s + "/" else s
  }

  function Bare(s: string): string
    requires s != ""
  {
    if s[0] == '/' then s[1..] else s
  }

  function JoinPath(base: string, rel: string): string {
    if base == "" then rel else if rel == "" then base else Slashed(base) + Bare(rel)
  }

  lemma SlashedJoin(a: string, b: string)
    requires a != "" && a[|a| - 1] == '/' && b != ""
    ensures Slashed(a + Bare(b)) == a + Bare(Slashed(b))
  {
    if Bare(b) == "" {
      assert b == "/" && a + "" == a;
    } else if b[|b| - 1] != '/' {
      assert (a + Bare(b)) + "/" == a + (Bare(b) + "/");
      assert Bare(b + "/") == Bare(b) + "/";
    }
  }

  lemma BareJoin(b: string, c: string)
    requires b != ""
    ensures Bare(Slashed(b) + c) == Bare(Slashed(b)) + c
  {
  }

  lemma ConcatAssociative(x: string, y: string, z: string)
    ensures (x + y) + z == x + (y + z)
  {
  }

  lemma JoinLeft(a: string, b: string, c: string)
    requires a != "" && b != "" && c != ""
    ensures JoinPath(JoinPath(a, b), c) == Slashed(a) + (Bare(Slashed(b)) + Bare(c))
  {
    SlashedJoin(Slashed(a), b);
    ConcatAssociative(Slashed(a), Bare(Slashed(b)), Bare(c));
  }

  lemma JoinRight(a: string, b: string, c: string)
    requires a != "" && b != "" && c != ""
    ensures JoinPath(a, JoinPath(b, c)) == Slashed(a) + (Bare(Slashed(b)) + Bare(c))
  {
    BareJoin(b, Bare(c));
  }

  /** Joining is associative on all strings; the empty string is its unit by definition. */
  lemma JoinPathAssociative(a: string, b: string, c: string)
    ensures JoinPath(JoinPath(a, b), c) == JoinPath(a, JoinPath(b, c))
  {
    if a != "" && b != "" && c != "" {
      JoinLeft(a, b, c);
      JoinRight(a, b, c);
    }
  }

  /** However many of the two write the slash between them, exactly one is there. */
  lemma JoinsWithOneSlash(head: string, tail: string)
    requires head != "" && head[|head| - 1] != '/' && tail != "" && tail[0] != '/'
    ensures JoinPath(head, tail) == head + "/" + tail
    ensures JoinPath(head + "/", tail) == head + "/" + tail
    ensures JoinPath(head, "/" + tail) == head + "/" + tail
    ensures JoinPath(head + "/", "/" + tail) == head + "/" + tail
  {
    assert (head + "/")[|head|] == '/' && ("/" + tail)[1..] == tail;
  }

  /** In general: a final slash of the base and a first one of the rest are one; an empty part adds none. */
  lemma JoinsExactly(base: string, rel: string)
    ensures JoinPath("", rel) == rel && JoinPath(base, "") == base
    ensures base != "" && rel != "" ==>
              var b := if base[|base| - 1] == '/' then base[..|base| - 1] else base;
              var r := if rel[0] == '/' then rel[1..] else rel;
              JoinPath(base, rel) == b + "/" + r
  {
    if base != "" && base[|base| - 1] == '/' {
      assert base[..|base| - 1] + "/" == base;
    }
  }

  /** A net/http sub-group: Group joins its prefix, Handle joins the pattern. */
  datatype Group = Root | Sub(prefix: string) {
    function Enter(p: string): Group {
      Sub(if Root? then p else JoinPath(prefix, p))
    }

    function Pattern(p: string): string {
      if Root? then p else JoinPath(prefix, p)
    }
  }

  function EnterAll(g: Group, prefixes: seq<string>): Group
    decreases |prefixes|
  {
    if prefixes == [] then g else EnterAll(g.Enter(prefixes[0]), prefixes[1..])
  }

  function JoinAll(prefixes: seq<string>): string {
    if prefixes == [] then "" else JoinPath(prefixes[0], JoinAll(prefixes[1..]))
  }

  /**
    Main result. Through any nesting of groups, a handler gets the pattern that one flat group
    with the joined prefix gives it.
   */
  lemma {:induction false} NestingIsFlat(g: Group, prefixes: seq<string>, pattern: string)
    ensures EnterAll(g, prefixes).Pattern(pattern) == g.Enter(JoinAll(prefixes)).Pattern(pattern)
    decreases |prefixes|
  {
    if prefixes != [] {
      var first, rest := prefixes[0], JoinAll(prefixes[1..]);
      NestingIsFlat(g.Enter(first), prefixes[1..], pattern);
      if g.Sub? {
        JoinPathAssociative(g.prefix, first, rest);
      }
    }
  }
}
