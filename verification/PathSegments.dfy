/** Texts cut at separators, as strings.Index and strings.Split do it. */
module PathSegments {
  import opened Wrappers

  function Index(s: string, c: char): (at: Option<nat>)
    ensures match at
            case None => c !in s
            case Some(k) => k < |s| && s[k] == c && c !in s[..k]
  {
    if s == "" then None
    else if s[0] == c then Some(0)
    else if Index(s[1..], c).None? then None
    else
      FrontOfTail(s, Index(s[1..], c).value);
      Some(Index(s[1..], c).value + 1)
  }

  lemma FrontOfTail(s: string, n: nat)
    requires n < |s|
    ensures s[..n + 1] == [s[0]] + s[1..][..n]
  {
  }

  function Split(s: string, sep: char): (segs: seq<string>)
    ensures |segs| >= 1
  {
    if s == "" then [""]
    else
      var rest := Split(s[1..], sep);
      if s[0] == sep then [""] + rest else [[s[0]] + rest[0]] + rest[1..]
  }

  function Join(segs: seq<string>, sep: char): string
    requires |segs| >= 1
  {
    if |segs| == 1 then segs[0] else segs[0] + [sep] + Join(segs[1..], sep)
  }

  /** Splitting loses nothing and leaves no separator inside a segment. */
  lemma {:induction false} JoinOfSplit(s: string, sep: char)
    ensures Join(Split(s, sep), sep) == s
    ensures forall i :: 0 <= i < |Split(s, sep)| ==> sep !in Split(s, sep)[i]
  {
    if s != "" {
      JoinOfSplit(s[1..], sep);
      var rest, all := Split(s[1..], sep), Split(s, sep);
      assert s == [s[0]] + s[1..];
      if s[0] == sep {
        assert all[1..] == rest;
        assert Join(all, sep) == "" + [sep] + s[1..];
      } else {
        assert all[1..] == rest[1..] && all[0] == [s[0]] + rest[0];
      }
    }
  }

  /** And it is the only such list of segments. */
  lemma {:induction false} SplitOfJoin(segs: seq<string>, sep: char)
    requires |segs| >= 1 && forall i :: 0 <= i < |segs| ==> sep !in segs[i]
    ensures Split(Join(segs, sep), sep) == segs
    decreases |segs|, |segs[0]|
  {
    var s := Join(segs, sep);
    if segs[0] == "" {
      if |segs| > 1 {
        SplitOfJoin(segs[1..], sep);
        assert s == [sep] + Join(segs[1..], sep) && s[1..] == Join(segs[1..], sep);
      }
    } else {
      var shorter := segs[0 := segs[0][1..]];
      assert segs[0][0] in segs[0] && forall c :: c in segs[0][1..] ==> c in segs[0];
      SplitOfJoin(shorter, sep);
      assert shorter[1..] == segs[1..];
      assert s[1..] == Join(shorter, sep) && s[0] == segs[0][0];
      assert Split(s, sep) == [[s[0]] + shorter[0]] + shorter[1..];
      assert [s[0]] + shorter[0] == segs[0] && segs == [segs[0]] + segs[1..];
    }
  }

  /** A text continues another past a separator exactly if its segments extend the other's. */
  lemma {:induction false} PrefixIsSegmentPrefix(s: string, p: string, sep: char)
    ensures s == p || p + [sep] <= s <==> Split(p, sep) <= Split(s, sep)
  {
    if p == "" {
      assert p + [sep] == [sep];
      assert [sep] <= s <==> s != "" && s[0] == sep;
      assert s != "" && s[0] != sep ==> Split(s, sep)[0] != "";
    } else if s == "" {
      assert |p + [sep]| > 0;
      assert Split(p, sep)[0] != "" || |Split(p, sep)| > 1;
    } else {
      PrefixIsSegmentPrefix(s[1..], p[1..], sep);
      PrefixOfTail(s, p, sep);
      if p[0] == s[0] {
        SameHead(p, s, sep);
      } else {
        OtherHead(p, s, sep);
      }
    }
  }

  lemma PrefixOfTail(s: string, p: string, sep: char)
    requires p != "" && s != ""
    ensures s == p || p + [sep] <= s <==> p[0] == s[0] && (s[1..] == p[1..] || p[1..] + [sep] <= s[1..])
  {
    assert p == [p[0]] + p[1..] && s == [s[0]] + s[1..];
    assert p + [sep] == [p[0]] + (p[1..] + [sep]);
  }

  lemma SameHead(p: string, s: string, sep: char)
    requires p != "" && s != "" && p[0] == s[0]
    ensures Split(p, sep) <= Split(s, sep) <==> Split(p[1..], sep) <= Split(s[1..], sep)
  {
    var ps, ss := Split(p[1..], sep), Split(s[1..], sep);
    if p[0] == sep {
      PrefixOfCons("", "", ps, ss);
    } else {
      assert ps == [ps[0]] + ps[1..] && ss == [ss[0]] + ss[1..];
      PrefixOfCons(ps[0], ss[0], ps[1..], ss[1..]);
      PrefixOfCons([p[0]] + ps[0], [s[0]] + ss[0], ps[1..], ss[1..]);
      assert ([p[0]] + ps[0])[1..] == ps[0] && ([s[0]] + ss[0])[1..] == ss[0];
    }
  }

  lemma PrefixOfCons(x: string, y: string, xs: seq<string>, ys: seq<string>)
    ensures [x] + xs <= [y] + ys <==> x == y && xs <= ys
  {
    var a, b := [x] + xs, [y] + ys;
    if a <= b {
      assert a[0] == b[0];
      assert xs == a[1..] == b[..|a|][1..] == ys[..|xs|];
    }
  }

  lemma OtherHead(p: string, s: string, sep: char)
    requires p != "" && s != "" && p[0] != s[0]
    ensures !(Split(p, sep) <= Split(s, sep))
  {
    var pp, sp := Split(p, sep), Split(s, sep);
    assert p[0] != sep ==> pp[0][0] == p[0];
    assert s[0] != sep ==> sp[0][0] == s[0];
  }
}
