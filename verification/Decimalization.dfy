/** Decimalization of hex text (libCrypto/ssm/pvv.go). */
module Decimalization {
  import opened Wrappers
  import opened Numbers
  import Hex

  const TABLE := "0123456789012345"

  predicate IsLetter(c: char) {
    'A' <= c <= 'F'
  }

  function DigitsOf(s: string): string {
    if s == "" then ""
    else DigitsOf(s[..|s| - 1]) + (if IsDigit(s[|s| - 1]) then [s[|s| - 1]] else "")
  }

  /** What the table has for a letter. */
  function TableDigit(c: char): char
    requires IsLetter(c)
  {
    TABLE[c as int - 'A' as int + 10]
  }

  function LettersOf(s: string): string {
    if s == "" then ""
    else
      var c := s[|s| - 1];
      LettersOf(s[..|s| - 1]) + (if IsLetter(c) then [TableDigit(c)] else "")
  }

  /** A character outside the digits is shifted by 'A' - '0' as a byte; what is then no digit counts as 0. */
  function Immediate(c: char): Result<char> {
    if IsDigit(c) then Ok(c)
    else
      var shifted := (c as int - 'A' as int + '0' as int) % 256;
      var id := if '0' as int <= shifted <= '9' as int then shifted - '0' as int else 0;
      if id + 10 < |TABLE| then Ok(TABLE[id + 10]) else Panic
  }

  function ImmediateAll(s: string): Result<string> {
    if s == "" then Ok("")
    else
      var most :- ImmediateAll(s[..|s| - 1]);
      var last :- Immediate(s[|s| - 1]);
      Ok(most + [last])
  }

  function Take(s: string, n: int): string {
    if n <= 0 then "" else if n < |s| then s[..n] else s
  }

  /** Two passes: the decimal digits first, then the letters A to F, cut to the desired length. */
  function DecimalizeSpec(s: string, length: int, immediate: bool): Result<string> {
    if immediate then ImmediateAll(Take(s, length))
    else Ok(Take(DigitsOf(s) + LettersOf(s), if |s| < length then |s| else length))
  }

  lemma {:induction false} DigitsOfPrefix(s: string, i: nat)
    requires i <= |s|
    ensures DigitsOf(s[..i]) <= DigitsOf(s)
    decreases |s| - i
  {
    if i == |s| {
      assert s[..i] == s;
    } else {
      assert s[..i + 1][..i] == s[..i];
      DigitsOfPrefix(s, i + 1);
    }
  }

  lemma {:induction false} LettersOfPrefix(s: string, i: nat)
    requires i <= |s|
    ensures LettersOf(s[..i]) <= LettersOf(s)
    decreases |s| - i
  {
    if i == |s| {
      assert s[..i] == s;
    } else {
      assert s[..i + 1][..i] == s[..i];
      LettersOfPrefix(s, i + 1);
    }
  }

  lemma TakeOfLonger(a: string, b: string, n: int)
    requires |Take(a, n)| == n
    ensures Take(a + b, n) == Take(a, n)
  {
    assert (a + b)[..n] == a[..n];
    assert n == |a| ==> a[..n] == a;
    assert n == |a + b| ==> a + b == a;
  }

  method DigitPass(s: string, desired: int) returns (r: string)
    ensures r == Take(DigitsOf(s), desired)
  {
    r := "";
    var i := 0;
    while i < |s| && |r| < desired
      invariant i <= |s| && r == DigitsOf(s[..i])
      invariant |r| <= desired || r == ""
    {
      assert s[..i + 1][..i] == s[..i];
      if IsDigit(s[i]) {
        r := r + [s[i]];
      }
      i := i + 1;
    }
    DigitsOfPrefix(s, i);
    if i == |s| {
      assert s[..|s|] == s;
    } else if desired > 0 {
      TakePrefix(r, DigitsOf(s), desired);
    }
  }

  method LetterPass(s: string, start: string, desired: int) returns (r: string)
    requires |start| <= desired || start == ""
    ensures r == Take(start + LettersOf(s), desired)
  {
    r := start;
    var i := 0;
    while i < |s| && |r| < desired
      invariant i <= |s| && r == start + LettersOf(s[..i])
      invariant |r| <= desired || r == ""
    {
      NextLetter(s, start, i);
      if IsLetter(s[i]) {
        r := r + [TableDigit(s[i])];
      }
      i := i + 1;
    }
    LettersSoFar(s, start, i, desired);
  }

  lemma NextLetter(s: string, start: string, i: nat)
    requires i < |s|
    ensures start + LettersOf(s[..i + 1])
            == (start + LettersOf(s[..i]))
               + (if IsLetter(s[i]) then [TableDigit(s[i])] else "")
  {
    assert s[..i + 1][..i] == s[..i];
  }

  /** Stopped by the end of the text or by the length, the pass has taken what it should. */
  lemma LettersSoFar(s: string, start: string, i: nat, desired: int)
    requires i <= |s| && var r := start + LettersOf(s[..i]); |r| <= desired || r == ""
    requires i == |s| || |start + LettersOf(s[..i])| >= desired
    ensures start + LettersOf(s[..i]) == Take(start + LettersOf(s), desired)
  {
    LettersOfPrefix(s, i);
    if i == |s| {
      assert s[..|s|] == s;
    } else if desired > 0 {
      TakePrefix(start + LettersOf(s[..i]), start + LettersOf(s), desired);
    }
  }

  lemma TakePrefix(a: string, b: string, n: nat)
    requires a <= b && |a| == n
    ensures a == Take(b, n)
  {
  }

  method Decimalize(s: string, length: int, immediate: bool) returns (r: Result<string>)
    ensures r == DecimalizeSpec(s, length, immediate)
  {
    var desired := if |s| < length then |s| else length;
    if !immediate {
      var digits := DigitPass(s, desired);
      if |digits| == desired {
        TakeOfLonger(DigitsOf(s), LettersOf(s), desired);
        return Ok(digits);
      }
      var both := LetterPass(s, digits, desired);
      return Ok(both);
    }
    var out, i := "", 0;
    while i < |s| && |out| < desired
      invariant |out| == i <= |s| && (i <= desired || i == 0)
      invariant ImmediateAll(s[..i]) == Ok(out)
    {
      assert s[..i + 1][..i] == s[..i];
      var c := Immediate(s[i]);
      if c.Panic? {
        PanicSpreads(s, i + 1, Take(s, length));
        return Panic;
      }
      out := out + [c.value];
      i := i + 1;
    }
    assert s[..i] == Take(s, length);
    return Ok(out);
  }

  lemma {:induction false} PanicSpreads(s: string, i: nat, t: string)
    requires i <= |t| && t <= s && ImmediateAll(s[..i]).Panic?
    ensures ImmediateAll(t).Panic?
    decreases |t|
  {
    if i == |t| {
      assert s[..i] == t;
    } else {
      PanicSpreads(s, i, t[..|t| - 1]);
    }
  }

  lemma {:induction false} CountDigitsAndLetters(s: string)
    requires forall c :: c in s ==> IsDigit(c) || IsLetter(c)
    ensures |DigitsOf(s)| + |LettersOf(s)| == |s|
  {
    if s != "" {
      assert s[|s| - 1] in s && forall c :: c in s[..|s| - 1] ==> c in s;
      CountDigitsAndLetters(s[..|s| - 1]);
    }
  }

  lemma {:induction false} NoUpperNoLetters(s: string)
    requires forall c :: c in s ==> !IsLetter(c)
    ensures LettersOf(s) == ""
  {
    if s != "" {
      assert s[|s| - 1] in s && forall c :: c in s[..|s| - 1] ==> c in s;
      NoUpperNoLetters(s[..|s| - 1]);
    }
  }

  // ----- Which characters are taken, by their places -----

  /** The places, in order, of exactly the characters that `keep` accepts. */
  ghost predicate PlacesOf(s: string, keep: char -> bool, places: seq<nat>) {
    && (forall i :: 0 <= i < |places| ==> places[i] < |s| && keep(s[places[i]]))
    && (forall i, j :: 0 <= i < j < |places| ==> places[i] < places[j])
    && (forall p :: 0 <= p < |s| && keep(s[p]) ==> p in places)
  }

  lemma PlacesSnoc(s: string, keep: char -> bool, front: seq<nat>)
    requires s != "" && PlacesOf(s[..|s| - 1], keep, front)
    ensures PlacesOf(s, keep, front + (if keep(s[|s| - 1]) then [|s| - 1] else []))
  {
    var last := |s| - 1;
    var places := front + (if keep(s[last]) then [last] else []);
    forall p | 0 <= p < |s| && keep(s[p])
      ensures p in places
    {
      if p < last {
        assert s[..last][p] == s[p];
        assert p in front;
      } else {
        assert places[|front|] == p;
      }
    }
  }

  lemma {:induction false} DigitPlaces(s: string) returns (places: seq<nat>)
    ensures PlacesOf(s, IsDigit, places) && |DigitsOf(s)| == |places|
    ensures forall i :: 0 <= i < |places| ==> DigitsOf(s)[i] == s[places[i]]
  {
    if s == "" {
      places := [];
    } else {
      var front := DigitPlaces(s[..|s| - 1]);
      PlacesSnoc(s, IsDigit, front);
      places := front + (if IsDigit(s[|s| - 1]) then [|s| - 1] else []);
    }
  }

  /** The decimal digit of a letter: A is 0 and F is 5. */
  function LetterDigit(c: char): char
    requires IsLetter(c)
  {
    "012345"[c as int - 'A' as int]
  }

  lemma {:induction false} LetterPlaces(s: string) returns (places: seq<nat>)
    ensures PlacesOf(s, IsLetter, places) && |LettersOf(s)| == |places|
    ensures forall i :: 0 <= i < |places| ==> LettersOf(s)[i] == LetterDigit(s[places[i]])
  {
    if s == "" {
      places := [];
    } else {
      var front := LetterPlaces(s[..|s| - 1]);
      PlacesSnoc(s, IsLetter, front);
      LastLetter(s);
      places := front + (if IsLetter(s[|s| - 1]) then [|s| - 1] else []);
      LettersAtPlaces(s, front, places);
    }
  }

  lemma LastLetter(s: string)
    requires s != ""
    ensures var c := s[|s| - 1];
            LettersOf(s) == LettersOf(s[..|s| - 1]) + (if IsLetter(c) then [LetterDigit(c)] else "")
  {
    if IsLetter(s[|s| - 1]) {
      LetterRow(s[|s| - 1]);
    }
  }

  lemma LettersAtPlaces(s: string, front: seq<nat>, places: seq<nat>)
    requires s != "" && places == front + (if IsLetter(s[|s| - 1]) then [|s| - 1] else [])
    requires var c := s[|s| - 1];
             LettersOf(s) == LettersOf(s[..|s| - 1]) + (if IsLetter(c) then [LetterDigit(c)] else "")
    requires |LettersOf(s[..|s| - 1])| == |front|
    requires forall i :: 0 <= i < |front| ==>
               front[i] < |s| - 1 && IsLetter(s[front[i]])
               && LettersOf(s[..|s| - 1])[i] == LetterDigit(s[front[i]])
    ensures |LettersOf(s)| == |places|
    ensures forall i :: 0 <= i < |places| ==>
              places[i] < |s| && IsLetter(s[places[i]]) && LettersOf(s)[i] == LetterDigit(s[places[i]])
  {
  }

  lemma LetterRow(c: char)
    requires IsLetter(c)
    ensures TableDigit(c) == LetterDigit(c)
  {
    assert c in {'A', 'B', 'C', 'D', 'E', 'F'};
  }

  /** The character at place i of the digits in order, then the letters in order. */
  function Picked(s: string, digits: seq<nat>, letters: seq<nat>, i: nat): char
    requires i < |digits| + |letters|
    requires forall k :: 0 <= k < |digits| ==> digits[k] < |s|
    requires forall k :: 0 <= k < |letters| ==> letters[k] < |s| && IsLetter(s[letters[k]])
  {
    if i < |digits| then s[digits[i]] else LetterDigit(s[letters[i - |digits|]])
  }

  /**
    Main result, place by place: the text's decimal digits in their order, then its letters A to F
    in theirs, each as its value less ten, and of these the first ones asked for.
   */
  lemma DecimalizesExactly(s: string, length: nat) returns (digits: seq<nat>, letters: seq<nat>)
    ensures PlacesOf(s, IsDigit, digits) && PlacesOf(s, IsLetter, letters)
    ensures var r := DecimalizeSpec(s, length, false);
            && r.Ok? && |r.value| <= |digits| + |letters|
            && |r.value| == (if length < |digits| + |letters| then length else |digits| + |letters|)
            && forall i :: 0 <= i < |r.value| ==> r.value[i] == Picked(s, digits, letters, i)
  {
    digits := DigitPlaces(s);
    letters := LetterPlaces(s);
    FewerThanText(s);
  }

  lemma {:induction false} FewerThanText(s: string)
    ensures |DigitsOf(s)| + |LettersOf(s)| <= |s|
  {
    if s != "" {
      FewerThanText(s[..|s| - 1]);
    }
  }

  /** The immediate form on any byte: a digit as it is, A to F by value, G to J out of the table, the rest 0. */
  lemma ImmediateExactly(c: char)
    requires c as int < 256
    ensures '0' <= c <= '9' ==> Immediate(c) == Ok(c)
    ensures 'A' <= c <= 'F' ==> Immediate(c) == Ok(LetterDigit(c))
    ensures 'G' <= c <= 'J' ==> Immediate(c) == Panic
    ensures !('0' <= c <= '9') && !('A' <= c <= 'J') ==> Immediate(c) == Ok('0')
  {
    if 'A' <= c <= 'F' {
      LetterRow(c);
    }
  }

  /** In upper-case hex every asked-for digit comes out, up to the length of the text. */
  lemma UpperHexFillsTheLength(s: string, length: nat)
    requires forall c :: c in s ==> IsDigit(c) || IsLetter(c)
    ensures |DecimalizeSpec(s, length, false).value| == if |s| < length then |s| else length
  {
    CountDigitsAndLetters(s);
  }

  /**
    In lower-case hex, which the PVV and CVV callers pass, only the decimal digits come out, so
    exactly the texts with too few of them give too short a value.
   */
  lemma LowerHexKeepsOnlyDigits(s: string, length: nat)
    requires forall c :: c in s ==> !IsLetter(c)
    requires length <= |s|
    ensures DecimalizeSpec(s, length, false) == Ok(Take(DigitsOf(s), length))
    ensures |DecimalizeSpec(s, length, false).value| == length <==> |DigitsOf(s)| >= length
  {
    NoUpperNoLetters(s);
    assert DigitsOf(s) + "" == DigitsOf(s);
  }

  lemma ImmediateValue(c: char)
    requires IsDigit(c) || IsLetter(c)
    ensures Hex.Value(c).Some? && Immediate(c).Ok?
    ensures var d := Immediate(c).value;
            IsDigit(d) && DigitValue(d) == Hex.Value(c).value % 10
  {
    if IsLetter(c) {
      assert c in {'A', 'B', 'C', 'D', 'E', 'F'};
    }
  }

  /** One digit for each upper-case hex digit: its value modulo ten. */
  lemma {:induction false} ImmediateIsValueModTen(s: string)
    requires forall c :: c in s ==> IsDigit(c) || IsLetter(c)
    ensures var r := ImmediateAll(s);
            && r.Ok? && |r.value| == |s|
            && forall i :: 0 <= i < |s| ==>
                 IsDigit(r.value[i]) && Hex.Value(s[i]).Some?
                 && DigitValue(r.value[i]) == Hex.Value(s[i]).value % 10
  {
    if s != "" {
      var rest := s[..|s| - 1];
      assert s[|s| - 1] in s && forall c :: c in rest ==> c in s;
      ImmediateIsValueModTen(rest);
      ImmediateValue(s[|s| - 1]);
      var r, most := ImmediateAll(s).value, ImmediateAll(rest).value;
      assert r == most + [Immediate(s[|s| - 1]).value];
    }
  }
}
