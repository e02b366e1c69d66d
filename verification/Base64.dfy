/**
  Base64 with padding, in the standard and the URL alphabet (sections 4 and 5 of RFC 4648),
  read the way Go's encoding/base64 reads it: line breaks are skipped and the unused bits of
  a last group are not checked.
 */
module Base64 {
  import opened Wrappers
  import opened Bytes

  datatype Alphabet = Std | Url

  type sextet = x: int | 0 <= x < 64

  function Symbol(a: Alphabet, v: sextet): char {
    if v < 26 then ('A' as int + v) as char
    else if v < 52 then ('a' as int + (v - 26)) as char
    else if v < 62 then ('0' as int + (v - 52)) as char
    else if v == 62 then (if a == Std then '+' else '-')
    else (if a == Std then '/' else '_')
  }

  function Digit(a: Alphabet, c: char): Option<sextet> {
    if 'A' <= c <= 'Z' then Some(c as int - 'A' as int)
    else if 'a' <= c <= 'z' then Some(c as int - 'a' as int + 26)
    else if '0' <= c <= '9' then Some(c as int - '0' as int + 52)
    else if c == (if a == Std then '+' else '-') then Some(62)
    else if c == (if a == Std then '/' else '_') then Some(63)
    else None
  }

  function Symbols(a: Alphabet, v: seq<sextet>): string {
    if v == [] then "" else [Symbol(a, v[0])] + Symbols(a, v[1..])
  }

  function Digits(a: Alphabet, s: string): Option<seq<sextet>> {
    if s == "" then Some([])
    else
      var d, rest := Digit(a, s[0]), Digits(a, s[1..]);
      if d.None? || rest.None? then None else Some([d.value] + rest.value)
  }

  /** Three bytes become four six-bit values; one or two left over become two or three. */
  function Sextets(b: bytes): seq<sextet> {
    if b == [] then []
    else if |b| == 1 then [b[0] / 4, b[0] % 4 * 16]
    else if |b| == 2 then [b[0] / 4, b[0] % 4 * 16 + b[1] / 16, b[1] % 16 * 4]
    else Group(b[0], b[1], b[2]) + Sextets(b[3..])
  }

  function Group(x: byte, y: byte, z: byte): (v: seq<sextet>)
    ensures |v| == 4
  {
    [x / 4, x % 4 * 16 + y / 16, y % 16 * 4 + z / 64, z % 64]
  }

  function Octet0(v0: sextet, v1: sextet): byte { v0 * 4 + v1 / 16 }

  function Octet1(v1: sextet, v2: sextet): byte { v1 % 16 * 16 + v2 / 4 }

  function Octet2(v2: sextet, v3: sextet): byte { v2 % 4 * 64 + v3 }

  function Octets(v: seq<sextet>): bytes {
    if |v| < 2 then []
    else if |v| == 2 then [Octet0(v[0], v[1])]
    else if |v| == 3 then [Octet0(v[0], v[1]), Octet1(v[1], v[2])]
    else [Octet0(v[0], v[1]), Octet1(v[1], v[2]), Octet2(v[2], v[3])] + Octets(v[4..])
  }

  function Padding(n: nat): (s: string)
    ensures |s| == n
  {
    seq(n, _ => '=')
  }

  /** How many characters at the end of a text are padding: none, one or two. */
  function Pads(t: string): (n: nat)
    ensures n <= |t|
  {
    if |t| >= 1 && t[|t| - 1] == '=' then (if |t| >= 2 && t[|t| - 2] == '=' then 2 else 1) else 0
  }

  function PadCount(sextets: nat): nat {
    if sextets % 4 == 2 then 2 else if sextets % 4 == 3 then 1 else 0
  }

  function Encode(a: Alphabet, b: bytes): GoString {
    var v := Sextets(b);
    PaddedCharacters(a, v, PadCount(|v|));
    Symbols(a, v) + Padding(PadCount(|v|))
  }

  function WithoutBreaks(s: string): string {
    if s == "" then ""
    else if s[0] == '\r' || s[0] == '\n' then WithoutBreaks(s[1..])
    else [s[0]] + WithoutBreaks(s[1..])
  }

  function Decode(a: Alphabet, s: string): Option<bytes> {
    var t := WithoutBreaks(s);
    var v := Digits(a, t[..|t| - Pads(t)]);
    if |t| % 4 != 0 || v.None? then None else Some(Octets(v.value))
  }

  // ----- Decoding inverts encoding -----

  lemma OctetsOfGroup(x: byte, y: byte, z: byte)
    ensures var v := Group(x, y, z);
            Octet0(v[0], v[1]) == x && Octet1(v[1], v[2]) == y && Octet2(v[2], v[3]) == z
  {
  }

  lemma OctetsOfTwo(x: byte, y: byte)
    ensures Octets(Sextets([x, y])) == [x, y] && |Sextets([x, y])| == 3
  {
    var v := Group(x, y, 0);
    OctetsOfGroup(x, y, 0);
    OctetsOfThree(v[0], v[1], v[2]);
    assert Sextets([x, y]) == [v[0], v[1], v[2]];
  }

  lemma OctetsOfThree(v0: sextet, v1: sextet, v2: sextet)
    ensures Octets([v0, v1, v2]) == [Octet0(v0, v1), Octet1(v1, v2)]
  {
  }

  lemma OctetsOfOne(x: byte)
    ensures Octets(Sextets([x])) == [x] && |Sextets([x])| == 2
  {
  }

  lemma OctetsAfterGroup(x: byte, y: byte, z: byte, rest: seq<sextet>)
    ensures Octets(Group(x, y, z) + rest) == [x, y, z] + Octets(rest)
  {
    OctetsOfGroup(x, y, z);
    assert (Group(x, y, z) + rest)[4..] == rest;
  }

  lemma {:induction false} SextetCount(b: bytes)
    ensures |Sextets(b)| % 4 != 1
  {
    if |b| >= 3 {
      SextetCount(b[3..]);
    }
  }

  lemma LongerText(b: bytes, rest: bytes, v: seq<sextet>)
    requires |b| >= 3 && rest == b[3..] && v == Sextets(rest) && Octets(v) == rest
    ensures Octets(Group(b[0], b[1], b[2]) + v) == b
  {
    OctetsAfterGroup(b[0], b[1], b[2], v);
    assert [b[0], b[1], b[2]] + rest == b;
  }

  lemma {:induction false} OctetsOfSextets(b: bytes)
    ensures Octets(Sextets(b)) == b
  {
    if |b| >= 3 {
      OctetsOfSextets(b[3..]);
      LongerText(b, b[3..], Sextets(b[3..]));
    } else if |b| == 2 {
      OctetsOfTwo(b[0], b[1]);
      assert [b[0], b[1]] == b;
    } else if |b| == 1 {
      OctetsOfOne(b[0]);
      assert [b[0]] == b;
    }
  }

  lemma DigitOfSymbol(a: Alphabet, v: sextet)
    ensures Digit(a, Symbol(a, v)) == Some(v)
    ensures Symbol(a, v) !in "=\r\n"
  {
  }

  lemma {:induction false} DigitsOfSymbols(a: Alphabet, v: seq<sextet>)
    ensures Digits(a, Symbols(a, v)) == Some(v)
    ensures |Symbols(a, v)| == |v|
    ensures forall c :: c in Symbols(a, v) ==> c !in "=\r\n" && c as int < 256
  {
    if v != [] {
      DigitOfSymbol(a, v[0]);
      DigitsOfSymbols(a, v[1..]);
      assert Symbols(a, v)[1..] == Symbols(a, v[1..]);
      assert [v[0]] + v[1..] == v;
    }
  }

  lemma {:induction false} WithoutBreaksKeeps(s: string)
    requires forall c :: c in s ==> c != '\r' && c != '\n'
    ensures WithoutBreaks(s) == s
  {
    if s != "" {
      assert s[0] in s && forall c :: c in s[1..] ==> c in s;
      WithoutBreaksKeeps(s[1..]);
      assert [s[0]] + s[1..] == s;
    }
  }

  lemma PadsOfPadded(s: string, n: nat)
    requires n <= 2 && forall c :: c in s ==> c != '='
    ensures var t := s + Padding(n); Pads(t) == n && t[..|t| - n] == s
  {
    var t := s + Padding(n);
    assert t[..|s|] == s;
    if s != "" {
      assert s[|s| - 1] in s && t[|s| - 1] == s[|s| - 1];
    }
  }

  lemma PaddedCharacters(a: Alphabet, v: seq<sextet>, n: nat)
    ensures forall c :: c in Symbols(a, v) + Padding(n) ==> c != '\r' && c != '\n' && c as int < 256
  {
    DigitsOfSymbols(a, v);
  }

  lemma DecodeOfDigits(a: Alphabet, t: string, v: seq<sextet>)
    requires WithoutBreaks(t) == t && |t| % 4 == 0
    requires Digits(a, t[..|t| - Pads(t)]) == Some(v)
    ensures Decode(a, t) == Some(Octets(v))
  {
  }

  lemma DigitsOfPadded(a: Alphabet, v: seq<sextet>, n: nat, t: string)
    requires n <= 2 && t == Symbols(a, v) + Padding(n)
    ensures WithoutBreaks(t) == t && |t| == |v| + n && Digits(a, t[..|t| - Pads(t)]) == Some(v)
  {
    PaddedCharacters(a, v, n);
    WithoutBreaksKeeps(t);
    DigitsOfSymbols(a, v);
    PadsOfPadded(Symbols(a, v), n);
  }

  lemma PadsToGroups(n: nat)
    requires n % 4 != 1
    ensures PadCount(n) <= 2 && (n + PadCount(n)) % 4 == 0
  {
  }

  /** On every byte string, in both alphabets. */
  lemma DecodeOfEncode(a: Alphabet, b: bytes)
    ensures Decode(a, Encode(a, b)) == Some(b)
  {
    OctetsOfSextets(b);
    SextetCount(b);
    PadsToGroups(|Sextets(b)|);
    DigitsOfPadded(a, Sextets(b), PadCount(|Sextets(b)|), Encode(a, b));
    DecodeOfDigits(a, Encode(a, b), Sextets(b));
  }

  /** Encoded text is empty only for no bytes at all. */
  lemma EncodeEmptyOnlyForEmpty(a: Alphabet, b: bytes)
    ensures Encode(a, b) == "" <==> b == []
  {
    DigitsOfSymbols(a, Sextets(b));
  }

  lemma {:induction false} SextetsLength(b: bytes)
    ensures |Sextets(b)| == (4 * |b| + 2) / 3
  {
    if |b| >= 3 {
      SextetsLength(b[3..]);
    }
  }

  lemma PaddedLength(n: nat)
    ensures (4 * n + 2) / 3 + PadCount((4 * n + 2) / 3) == (n + 2) / 3 * 4
  {
    assert n == 3 * (n / 3) + n % 3;
  }

  /** Four characters for every three bytes begun. */
  lemma EncodedLength(a: Alphabet, b: bytes)
    ensures |Encode(a, b)| == (|b| + 2) / 3 * 4
  {
    DigitsOfSymbols(a, Sextets(b));
    SextetsLength(b);
    PaddedLength(|b|);
  }

  // ----- The code itself (sections 4 and 5 of RFC 4648) -----

  const CAPITALS := "ABCDEFGHIJKLMNOPQRSTUVWXYZ"
  const SMALLS := "abcdefghijklmnopqrstuvwxyz"
  const NUMERALS := "0123456789"

  function Table(a: Alphabet): (t: string)
    ensures |t| == 64
  {
    CAPITALS + SMALLS + NUMERALS + (if a == Std then "+/" else "-_")
  }

  lemma SymbolIsTabled(a: Alphabet, v: sextet)
    ensures Symbol(a, v) == Table(a)[v]
  {
    if v < 26 {
      assert Table(a)[v] == CAPITALS[v];
    } else if v < 52 {
      assert Table(a)[v] == SMALLS[v - 26];
    } else if v < 62 {
      assert Table(a)[v] == NUMERALS[v - 52];
    } else {
      assert Table(a)[v] == (if a == Std then "+/" else "-_")[v - 62];
    }
  }

  /** The i-th byte, zero past the end. */
  function ByteAt(b: bytes, i: nat): byte {
    if i < |b| then b[i] else 0
  }

  /** Three bytes and four six-bit values are the same 24 bits. */
  predicate SameBits(x: byte, y: byte, z: byte, v0: sextet, v1: sextet, v2: sextet, v3: sextet) {
    0x1_0000 * x + 0x100 * y + z == 0x4_0000 * v0 + 0x1000 * v1 + 0x40 * v2 + v3
  }

  lemma GroupKeepsBits(x: byte, y: byte, z: byte)
    ensures var v := Group(x, y, z); SameBits(x, y, z, v[0], v[1], v[2], v[3])
  {
  }

  lemma {:induction false} SymbolsSplit(a: Alphabet, v: seq<sextet>, w: seq<sextet>)
    ensures Symbols(a, v + w) == Symbols(a, v) + Symbols(a, w)
  {
    if v == [] {
      assert v + w == w;
    } else {
      assert (v + w)[1..] == v[1..] + w;
      SymbolsSplit(a, v[1..], w);
    }
  }

  lemma SymbolsOfFour(a: Alphabet, v: seq<sextet>)
    requires |v| == 4
    ensures Symbols(a, v) == [Symbol(a, v[0]), Symbol(a, v[1]), Symbol(a, v[2]), Symbol(a, v[3])]
  {
    assert v[1..][1..] == v[2..] && v[2..][1..] == v[3..] && v[3..][1..] == [];
    assert Symbols(a, v[3..]) == [Symbol(a, v[3])];
    assert Symbols(a, v[2..]) == [Symbol(a, v[2]), Symbol(a, v[3])];
    assert Symbols(a, v[1..]) == [Symbol(a, v[1]), Symbol(a, v[2]), Symbol(a, v[3])];
  }

  lemma EncodeLonger(a: Alphabet, b: bytes)
    requires |b| >= 3
    ensures Encode(a, b) == Symbols(a, Group(b[0], b[1], b[2])) + Encode(a, b[3..])
  {
    var v, w := Group(b[0], b[1], b[2]), Sextets(b[3..]);
    SymbolsSplit(a, v, w);
    FourMore(|w|);
    ConcatAssociative(Symbols(a, v), Symbols(a, w), Padding(PadCount(|w|)));
  }

  lemma FourMore(n: nat)
    ensures PadCount(4 + n) == PadCount(n)
  {
  }

  lemma ConcatAssociative(x: string, y: string, z: string)
    ensures (x + y) + z == x + (y + z)
  {
  }

  /** Four characters that stand for these bits, the last ones padding where no byte is left. */
  ghost predicate StandsFor(a: Alphabet, b: bytes, i: nat, e: string,
                            v0: sextet, v1: sextet, v2: sextet, v3: sextet)
  {
    && SameBits(ByteAt(b, i), ByteAt(b, i + 1), ByteAt(b, i + 2), v0, v1, v2, v3)
    && e == [Table(a)[v0], Table(a)[v1],
             if i + 1 < |b| then Table(a)[v2] else '=',
             if i + 2 < |b| then Table(a)[v3] else '=']
  }

  lemma SymbolsOfTwo(a: Alphabet, v: sextet, w: sextet)
    ensures Symbols(a, [v, w]) == [Symbol(a, v), Symbol(a, w)]
  {
    assert [v, w][1..] == [w] && [w][1..] == [];
    assert Symbols(a, [w]) == [Symbol(a, w)] + [];
  }

  lemma SymbolsOfThree(a: Alphabet, v: sextet, w: sextet, x: sextet)
    ensures Symbols(a, [v, w, x]) == [Symbol(a, v), Symbol(a, w), Symbol(a, x)]
  {
    assert [v, w, x][1..] == [w, x];
    SymbolsOfTwo(a, w, x);
  }

  lemma LastByte(a: Alphabet, b: bytes, v: seq<sextet>)
    requires |b| == 1 && v == Group(b[0], 0, 0)
    ensures Encode(a, b) == [Symbol(a, v[0]), Symbol(a, v[1]), '=', '=']
  {
    assert Sextets(b) == [v[0], v[1]];
    SymbolsOfTwo(a, v[0], v[1]);
  }

  lemma LastTwoBytes(a: Alphabet, b: bytes, v: seq<sextet>)
    requires |b| == 2 && v == Group(b[0], b[1], 0)
    ensures Encode(a, b) == [Symbol(a, v[0]), Symbol(a, v[1]), Symbol(a, v[2]), '=']
  {
    assert Sextets(b) == [v[0], v[1], v[2]];
    SymbolsOfThree(a, v[0], v[1], v[2]);
  }

  lemma LastGroup(a: Alphabet, b: bytes, v: seq<sextet>)
    requires 1 <= |b| <= 2 && v == Group(b[0], ByteAt(b, 1), 0)
    ensures StandsFor(a, b, 0, Encode(a, b), v[0], v[1], v[2], v[3])
  {
    GroupKeepsBits(b[0], ByteAt(b, 1), 0);
    SymbolIsTabled(a, v[0]);
    SymbolIsTabled(a, v[1]);
    SymbolIsTabled(a, v[2]);
    if |b| == 1 {
      LastByte(a, b, v);
    } else {
      LastTwoBytes(a, b, v);
    }
  }

  lemma WholeGroup(a: Alphabet, b: bytes, v: seq<sextet>)
    requires |b| >= 3 && v == Group(b[0], b[1], b[2])
    ensures StandsFor(a, b, 0, Symbols(a, v), v[0], v[1], v[2], v[3])
  {
    GroupKeepsBits(b[0], b[1], b[2]);
    SymbolsOfFour(a, v);
    SymbolIsTabled(a, v[0]);
    SymbolIsTabled(a, v[1]);
    SymbolIsTabled(a, v[2]);
    SymbolIsTabled(a, v[3]);
  }

  lemma StandsForLater(a: Alphabet, b: bytes, k: nat, e: string, v0: sextet, v1: sextet, v2: sextet, v3: sextet)
    requires |b| >= 3 && StandsFor(a, b[3..], k, e, v0, v1, v2, v3)
    ensures StandsFor(a, b, k + 3, e, v0, v1, v2, v3)
  {
    assert ByteAt(b, k + 3) == ByteAt(b[3..], k);
    assert ByteAt(b, k + 4) == ByteAt(b[3..], k + 1);
    assert ByteAt(b, k + 5) == ByteAt(b[3..], k + 2);
  }

  lemma SliceAfterFour(head: string, rest: string, k: nat)
    requires |head| == 4
    ensures k + 4 <= |rest| ==> (head + rest)[k + 4..k + 8] == rest[k..k + 4]
  {
  }

  /** A group further on is a group of the rest. */
  lemma LaterGroup(a: Alphabet, b: bytes, i: nat)
    requires i > 0 && 3 * i < |b| && 4 * i <= |Encode(a, b[3..])|
    ensures 4 * i + 4 <= |Encode(a, b)|
    ensures Encode(a, b)[4 * i..4 * i + 4] == Encode(a, b[3..])[4 * (i - 1)..4 * i]
  {
    EncodeLonger(a, b);
    SymbolsOfFour(a, Group(b[0], b[1], b[2]));
    SliceAfterFour(Symbols(a, Group(b[0], b[1], b[2])), Encode(a, b[3..]), 4 * (i - 1));
  }

  lemma FirstGroup(a: Alphabet, b: bytes, v: seq<sextet>)
    requires |b| >= 1 && v == Group(b[0], ByteAt(b, 1), ByteAt(b, 2))
    ensures 4 <= |Encode(a, b)|
    ensures StandsFor(a, b, 0, Encode(a, b)[..4], v[0], v[1], v[2], v[3])
  {
    if |b| >= 3 {
      WholeGroup(a, b, v);
      EncodeLonger(a, b);
      assert Encode(a, b)[..4] == Symbols(a, v);
    } else {
      LastGroup(a, b, v);
      assert Encode(a, b)[..4] == Encode(a, b);
    }
  }

  /** Main result: every group of three bytes, and the last shorter one, is encoded as the table says. */
  lemma {:induction false} EncodesByTable(a: Alphabet, b: bytes, i: nat)
    returns (v0: sextet, v1: sextet, v2: sextet, v3: sextet)
    requires 3 * i < |b|
    ensures 4 * i + 4 <= |Encode(a, b)|
    ensures StandsFor(a, b, 3 * i, Encode(a, b)[4 * i..4 * i + 4], v0, v1, v2, v3)
    decreases i
  {
    if i == 0 {
      var v := Group(b[0], ByteAt(b, 1), ByteAt(b, 2));
      v0, v1, v2, v3 := v[0], v[1], v[2], v[3];
      FirstGroup(a, b, v);
    } else {
      v0, v1, v2, v3 := EncodesByTable(a, b[3..], i - 1);
      StandsForLater(a, b, 3 * (i - 1), Encode(a, b[3..])[4 * (i - 1)..4 * i], v0, v1, v2, v3);
      LaterGroup(a, b, i);
    }
  }
}
