/** Bytes, exclusive or, and Go strings seen as byte strings. */
module Bytes {
  import opened Numbers

  type byte = x: int | 0 <= x < 256
  type bytes = seq<byte>

  function XorBits(a: nat, b: nat, n: nat): (r: nat)
    ensures r < Pow2(n)
  {
    if n == 0 then 0
    else (if a % 2 == b % 2 then 0 else 1) + 2 * XorBits(a / 2, b / 2, n - 1)
  }

  lemma HalvesOf(bit: nat, rest: nat)
    requires bit < 2
    ensures (bit + 2 * rest) % 2 == bit && (bit + 2 * rest) / 2 == rest
  {
  }

  lemma {:induction false} XorBitsTwice(a: nat, b: nat, n: nat)
    requires a < Pow2(n)
    ensures XorBits(XorBits(a, b, n), b, n) == a
  {
    if n != 0 {
      var bit := if a % 2 == b % 2 then 0 else 1;
      var rest := XorBits(a / 2, b / 2, n - 1);
      HalvesOf(bit, rest);
      XorBitsTwice(a / 2, b / 2, n - 1);
      assert XorBits(bit + 2 * rest, b, n) == (if bit == b % 2 then 0 else 1) + 2 * XorBits(rest, b / 2, n - 1);
    }
  }

  /** The i-th binary digit. */
  predicate Bit(x: nat, i: nat) {
    PositivePow2(i);
    x / Pow2(i) % 2 == 1
  }

  /** z is the exclusive or of a and b, on n bits: each bit is set exactly where theirs differ. */
  predicate IsXor(z: nat, a: nat, b: nat, n: nat) {
    z < Pow2(n) && forall i :: 0 <= i < n ==> (Bit(z, i) <==> Bit(a, i) != Bit(b, i))
  }

  lemma DivideTwice(x: nat, p: nat)
    requires p >= 1
    ensures x / (2 * p) == x / 2 / p
  {
    var q := x / 2 / p;
    var r := x / 2 % p;
    assert x / 2 == q * p + r;
    assert x == (2 * p) * q + (2 * r + x % 2);
    QuotientIs(x, 2 * p, q, 2 * r + x % 2);
  }

  lemma QuotientIs(x: nat, d: nat, q: nat, r: nat)
    requires 0 <= r < d && x == d * q + r
    ensures x / d == q
  {
    var k := x / d;
    assert x == d * k + x % d;
    if k < q {
      ProductGrows(d, k + 1, q);
    } else if k > q {
      ProductGrows(d, q + 1, k);
    }
  }

  lemma ProductGrows(d: nat, a: nat, b: nat)
    requires a <= b
    ensures d * a <= d * b
  {
  }

  lemma BitOfHalf(x: nat, i: nat)
    requires i > 0
    ensures Bit(x, i) <==> Bit(x / 2, i - 1)
  {
    PositivePow2(i - 1);
    DivideTwice(x, Pow2(i - 1));
  }

  lemma XorOfHalves(z: nat, rest: nat, a: nat, b: nat, n: nat)
    requires n > 0 && IsXor(rest, a / 2, b / 2, n - 1)
    requires z == (if a % 2 == b % 2 then 0 else 1) + 2 * rest
    ensures IsXor(z, a, b, n)
  {
    HalvesOf(if a % 2 == b % 2 then 0 else 1, rest);
    assert z / 2 == rest;
    forall i | 0 <= i < n
      ensures Bit(z, i) <==> Bit(a, i) != Bit(b, i)
    {
      if i > 0 {
        BitOfHalf(z, i);
        BitOfHalf(a, i);
        BitOfHalf(b, i);
      } else {
        LowestBit(z);
        LowestBit(a);
        LowestBit(b);
      }
    }
  }

  lemma LowestBit(x: nat)
    ensures Bit(x, 0) <==> x % 2 == 1
  {
  }

  lemma {:induction false} XorBitsIsXor(a: nat, b: nat, n: nat)
    ensures IsXor(XorBits(a, b, n), a, b, n)
  {
    if n > 0 {
      XorBitsIsXor(a / 2, b / 2, n - 1);
      XorOfHalves(XorBits(a, b, n), XorBits(a / 2, b / 2, n - 1), a, b, n);
    }
  }

  lemma Pow2Is256()
    ensures Pow2(8) == 256
  {
    assert Pow2(4) == 16;
    assert Pow2(6) == 64;
  }

  function Xor(a: byte, b: byte): byte {
    Pow2Is256();
    XorBits(a, b, 8)
  }

  lemma XorIsXor(a: byte, b: byte)
    ensures IsXor(Xor(a, b), a, b, 8)
  {
    XorBitsIsXor(a, b, 8);
  }

  /** a xor b, as long as a. */
  function XorAll(a: bytes, b: bytes): (r: bytes)
    requires |a| <= |b|
    ensures |r| == |a|
  {
    seq(|a|, i requires 0 <= i < |a| => Xor(a[i], b[i]))
  }

  lemma XorAllTwice(a: bytes, b: bytes)
    requires |a| <= |b|
    ensures XorAll(XorAll(a, b), b) == a
  {
    forall i | 0 <= i < |a|
      ensures XorAll(XorAll(a, b), b)[i] == a[i]
    {
      Pow2Is256();
      XorBitsTwice(a[i], b[i], 8);
    }
  }

  lemma BitOfHighNibble(x: byte, i: nat)
    ensures Bit(x / 16, i) <==> Bit(x, i + 4)
  {
    BitOfHalf(x, i + 4);
    BitOfHalf(x / 2, i + 3);
    BitOfHalf(x / 2 / 2, i + 2);
    BitOfHalf(x / 2 / 2 / 2, i + 1);
    assert x / 2 / 2 / 2 / 2 == x / 16;
  }

  lemma HalfOfSixteenth(x: nat)
    ensures x % 16 / 2 == x / 2 % 8 && x % 16 % 2 == x % 2
  {
  }

  lemma HalfOfEighth(x: nat)
    ensures x % 8 / 2 == x / 2 % 4 && x % 8 % 2 == x % 2
  {
  }

  lemma HalfOfFourth(x: nat)
    ensures x % 4 / 2 == x / 2 % 2 && x % 4 % 2 == x % 2
  {
  }

  lemma LowDigits(x: byte, y: nat)
    requires y == x % 16
    ensures y % 2 == x % 2 && y / 2 % 2 == x / 2 % 2
    ensures y / 2 / 2 % 2 == x / 2 / 2 % 2 && y / 2 / 2 / 2 % 2 == x / 2 / 2 / 2 % 2
  {
    HalfOfSixteenth(x);
    HalfOfEighth(x / 2);
    HalfOfFourth(x / 2 / 2);
  }

  /** The bits of a number from its halves. */
  lemma FourBits(x: nat)
    ensures Bit(x, 0) <==> x % 2 == 1
    ensures Bit(x, 1) <==> x / 2 % 2 == 1
    ensures Bit(x, 2) <==> x / 2 / 2 % 2 == 1
    ensures Bit(x, 3) <==> x / 2 / 2 / 2 % 2 == 1
  {
    BitOfHalf(x, 1);
    BitOfHalf(x, 2);
    BitOfHalf(x / 2, 1);
    BitOfHalf(x, 3);
    BitOfHalf(x / 2, 2);
    BitOfHalf(x / 2 / 2, 1);
    LowestBit(x);
    LowestBit(x / 2);
    LowestBit(x / 2 / 2);
    LowestBit(x / 2 / 2 / 2);
  }

  lemma BitOfLowNibble(x: byte, i: nat)
    requires i < 4
    ensures Bit(x % 16, i) <==> Bit(x, i)
  {
    FourBits(x);
    FourBits(x % 16);
    LowDigits(x, x % 16);
    if i == 0 {
    } else if i == 1 {
    } else if i == 2 {
    } else {
      assert i == 3;
    }
  }

  /** An exclusive or of bytes is one of their halves. */
  lemma XorOfNibbles(z: byte, a: byte, b: byte)
    requires IsXor(z, a, b, 8)
    ensures IsXor(z / 16, a / 16, b / 16, 4) && IsXor(z % 16, a % 16, b % 16, 4)
  {
    assert Pow2(4) == 16;
    forall i | 0 <= i < 4
      ensures Bit(z / 16, i) <==> Bit(a / 16, i) != Bit(b / 16, i)
      ensures Bit(z % 16, i) <==> Bit(a % 16, i) != Bit(b % 16, i)
    {
      BitOfHighNibble(z, i);
      BitOfHighNibble(a, i);
      BitOfHighNibble(b, i);
      BitOfLowNibble(z, i);
      BitOfLowNibble(a, i);
      BitOfLowNibble(b, i);
    }
  }

  // ----- Block ciphers: the rounds of AES and DES are parameters -----

  type Block16 = b: bytes | |b| == 16 witness seq(16, _ => 0)
  type Block8 = b: bytes | |b| == 8 witness seq(8, _ => 0)

  datatype BlockCipher<!B> = BlockCipher(enc: B -> B, dec: B -> B)

  ghost predicate Invertible<B(!new)>(c: BlockCipher<B>) {
    forall b: B :: c.dec(c.enc(b)) == b
  }

  // ----- Go strings: any sequence of bytes -----

  type GoString = s: string | forall c :: c in s ==> c as int < 256

  function ToBytes(s: GoString): (b: bytes)
    ensures |b| == |s|
  {
    seq(|s|, i requires 0 <= i < |s| => assert s[i] in s; s[i] as int)
  }

  function FromBytes(b: bytes): (s: GoString)
    ensures |s| == |b|
    ensures ToBytes(s) == b
  {
    var s := seq(|b|, i requires 0 <= i < |b| => b[i] as char);
    assert forall c :: c in s ==> exists i :: 0 <= i < |b| && c == b[i] as char;
    s
  }

  lemma FromToBytes(s: GoString)
    ensures FromBytes(ToBytes(s)) == s
  {
    forall i | 0 <= i < |s|
      ensures FromBytes(ToBytes(s))[i] == s[i]
    {
      assert s[i] in s;
      assert ToBytes(FromBytes(ToBytes(s)))[i] == FromBytes(ToBytes(s))[i] as int;
    }
  }

  /** copy(dst[at:], block) */
  method Store(dst: array<byte>, at: nat, block: bytes)
    requires at + |block| <= dst.Length
    modifies dst
    ensures dst[..at + |block|] == old(dst[..at]) + block
    ensures dst[at + |block|..] == old(dst[at + |block|..])
  {
    forall j | 0 <= j < |block| {
      dst[at + j] := block[j];
    }
  }
}
