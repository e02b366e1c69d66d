/** Hexadecimal text as Go's encoding/hex writes (lower case) and reads it (either case). */
module Hex {
  import opened Wrappers
  import opened Bytes

  type nibble = x: int | 0 <= x < 16

  function Digit(n: nibble): char {
    if n < 10 then ('0' as int + n) as char else ('a' as int + (n - 10)) as char
  }

  function Value(c: char): Option<nibble> {
    if '0' <= c <= '9' then Some(c as int - '0' as int)
    else if 'a' <= c <= 'f' then Some(c as int - 'a' as int + 10)
    else if 'A' <= c <= 'F' then Some(c as int - 'A' as int + 10)
    else None
  }

  function LowerChar(c: char): char {
    if 'A' <= c <= 'Z' then (c as int + 32) as char else c
  }

  function UpperChar(c: char): char {
    if 'a' <= c <= 'z' then (c as int - 32) as char else c
  }

  function Lower(s: string): (r: string)
    ensures |r| == |s| && forall i :: 0 <= i < |s| ==> r[i] == LowerChar(s[i])
  {
    seq(|s|, i requires 0 <= i < |s| => LowerChar(s[i]))
  }

  function Upper(s: string): (r: string)
    ensures |r| == |s| && forall i :: 0 <= i < |s| ==> r[i] == UpperChar(s[i])
  {
    seq(|s|, i requires 0 <= i < |s| => UpperChar(s[i]))
  }

  function EncodeByte(b: byte): (s: string)
    ensures |s| == 2
  {
    [Digit(b / 16), Digit(b % 16)]
  }

  function Encode(b: bytes): string {
    if b == [] then "" else EncodeByte(b[0]) + Encode(b[1..])
  }

  function Join(hi: nibble, lo: nibble): byte {
    16 * hi + lo
  }

  function Decode(s: string): Option<bytes> {
    if s == "" then Some([])
    else if |s| == 1 then None
    else
      var hi, lo, rest := Value(s[0]), Value(s[1]), Decode(s[2..]);
      if hi.None? || lo.None? || rest.None? then None else Some([Join(hi.value, lo.value)] + rest.value)
  }

  predicate IsHex(s: string) {
    forall c :: c in s ==> Value(c).Some?
  }

  lemma DigitOfValue(c: char)
    requires Value(c).Some?
    ensures Digit(Value(c).value) == LowerChar(c)
    ensures Value(UpperChar(c)) == Value(c)
  {
  }

  lemma LowerSplits(a: string, b: string)
    ensures Lower(a + b) == Lower(a) + Lower(b)
    ensures Upper(a + b) == Upper(a) + Upper(b)
  {
  }

  lemma IsHexOfPair(s: string)
    requires |s| >= 2
    ensures IsHex(s) <==> Value(s[0]).Some? && Value(s[1]).Some? && IsHex(s[2..])
  {
    assert s == [s[0], s[1]] + s[2..];
    assert s[0] in s && s[1] in s;
  }

  /** Decoding succeeds exactly on an even number of hex digits. */
  lemma {:induction false} DecodesExactly(s: string)
    ensures Decode(s).Some? <==> |s| % 2 == 0 && IsHex(s)
    ensures Decode(s).Some? ==> 2 * |Decode(s).value| == |s|
    decreases |s|
  {
    if |s| >= 2 {
      DecodesExactly(s[2..]);
      IsHexOfPair(s);
    }
  }

  lemma EncodeByteOfJoin(hi: nibble, lo: nibble)
    ensures EncodeByte(Join(hi, lo)) == [Digit(hi), Digit(lo)]
  {
    assert Join(hi, lo) / 16 == hi && Join(hi, lo) % 16 == lo;
  }

  lemma EncodeOfPair(s: string, b: bytes)
    requires |s| >= 2 && Value(s[0]).Some? && Value(s[1]).Some?
    ensures Encode([Join(Value(s[0]).value, Value(s[1]).value)] + b) == Lower(s[..2]) + Encode(b)
  {
    var byte0 := Join(Value(s[0]).value, Value(s[1]).value);
    DigitOfValue(s[0]);
    DigitOfValue(s[1]);
    EncodeByteOfJoin(Value(s[0]).value, Value(s[1]).value);
    assert ([byte0] + b)[1..] == b;
    assert Lower(s[..2]) == [LowerChar(s[0]), LowerChar(s[1])];
  }

  /** Decoding loses only the case of the digits. */
  lemma {:induction false} EncodeOfDecode(s: string)
    requires Decode(s).Some?
    ensures Encode(Decode(s).value) == Lower(s)
    decreases |s|
  {
    if |s| >= 2 {
      var rest := Decode(s[2..]).value;
      EncodeOfDecode(s[2..]);
      EncodeOfPair(s, rest);
      LowerSplits(s[..2], s[2..]);
      assert s[..2] + s[2..] == s;
    }
  }

  lemma DecodeOfPair(hi: char, lo: char, s: string)
    requires Value(hi).Some? && Value(lo).Some? && Decode(s).Some?
    ensures Decode([hi, lo] + s) == Some([Join(Value(hi).value, Value(lo).value)] + Decode(s).value)
  {
    assert ([hi, lo] + s)[2..] == s;
  }

  lemma ValueOfDigit(n: nibble)
    ensures Value(Digit(n)) == Some(n) && Value(UpperChar(Digit(n))) == Some(n)
  {
  }

  lemma ByteIsJoin(b: byte) returns (hi: nibble, lo: nibble)
    ensures Join(hi, lo) == b && EncodeByte(b) == [Digit(hi), Digit(lo)]
  {
    hi, lo := b / 16, b % 16;
  }

  /** A byte's two digits, in either case, are read back as that byte. */
  lemma DecodeOfByte(b: byte, rest: string)
    requires Decode(rest).Some?
    ensures Decode(EncodeByte(b) + rest) == Some([b] + Decode(rest).value)
    ensures Decode(Upper(EncodeByte(b)) + rest) == Some([b] + Decode(rest).value)
  {
    var hi, lo := ByteIsJoin(b);
    ValueOfDigit(hi);
    ValueOfDigit(lo);
    DecodeOfDigits(b, hi, lo, rest);
  }

  lemma DecodeOfDigits(b: byte, hi: nibble, lo: nibble, rest: string)
    requires Decode(rest).Some? && b == Join(hi, lo) && EncodeByte(b) == [Digit(hi), Digit(lo)]
    requires Value(Digit(hi)) == Value(UpperChar(Digit(hi))) == Some(hi)
    requires Value(Digit(lo)) == Value(UpperChar(Digit(lo))) == Some(lo)
    ensures Decode(EncodeByte(b) + rest) == Some([b] + Decode(rest).value)
    ensures Decode(Upper(EncodeByte(b)) + rest) == Some([b] + Decode(rest).value)
  {
    DecodeOfPair(Digit(hi), Digit(lo), rest);
    DecodeOfPair(UpperChar(Digit(hi)), UpperChar(Digit(lo)), rest);
    assert Upper(EncodeByte(b)) == [UpperChar(Digit(hi)), UpperChar(Digit(lo))];
  }

  /** Decoding inverts encoding, also after the text was put in upper case. */
  lemma {:induction false} DecodeOfEncode(b: bytes)
    ensures Decode(Encode(b)) == Some(b)
    ensures Decode(Upper(Encode(b))) == Some(b)
    ensures |Encode(b)| == 2 * |b|
  {
    if b != [] {
      DecodeOfEncode(b[1..]);
      DecodeOfByte(b[0], Encode(b[1..]));
      DecodeOfByte(b[0], Upper(Encode(b[1..])));
      LowerSplits(EncodeByte(b[0]), Encode(b[1..]));
      assert [b[0]] + b[1..] == b;
    }
  }

  // ----- Character by character -----

  const DIGITS := "0123456789abcdef"

  lemma DigitIsTabled(n: nibble)
    ensures Digit(n) == DIGITS[n]
  {
  }

  lemma ValueIsTabled(c: char)
    ensures Value(c).Some? ==> LowerChar(c) == DIGITS[Value(c).value]
    ensures forall n: nibble :: LowerChar(c) == DIGITS[n] ==> Value(c) == Some(n)
  {
  }

  /** The k-th half byte, high half first. */
  function NibbleAt(b: bytes, k: nat): nibble
    requires k < 2 * |b|
  {
    if k % 2 == 0 then b[k / 2] / 16 else b[k / 2] % 16
  }

  lemma {:induction false} EncodeAt(b: bytes, k: nat)
    requires k < 2 * |b|
    ensures k < |Encode(b)| && Encode(b)[k] == DIGITS[NibbleAt(b, k)]
  {
    DigitIsTabled(NibbleAt(b, k));
    if k >= 2 {
      EncodeAt(b[1..], k - 2);
      assert NibbleAt(b[1..], k - 2) == NibbleAt(b, k);
    }
  }

  lemma HalvesOfJoin(hi: nibble, lo: nibble)
    ensures Join(hi, lo) / 16 == hi && Join(hi, lo) % 16 == lo
  {
  }

  lemma {:induction false} DecodeAt(s: string, b: bytes, k: nat)
    requires Decode(s) == Some(b) && k < |s|
    ensures |s| == 2 * |b| && Value(s[k]) == Some(NibbleAt(b, k))
    decreases |s|
  {
    DecodesExactly(s);
    HalvesOfJoin(Value(s[0]).value, Value(s[1]).value);
    if k >= 2 {
      DecodeAt(s[2..], b[1..], k - 2);
      assert NibbleAt(b[1..], k - 2) == NibbleAt(b, k);
    }
  }
}
