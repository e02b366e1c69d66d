/** PIN offsets (libCrypto/ssm/pvv.go). */
module PinOffset {
  import opened Wrappers
  import opened Numbers
  import opened Bytes
  import opened Decimalization
  import Base64
  import Hex
  import Des

  function Numeral(s: string): int {
    if s == "" then 0 else 10 * Numeral(s[..|s| - 1]) + DigitValue(s[|s| - 1])
  }

  /** strconv.Atoi with its error ignored: 0 for a malformed number, the nearest int64 when out of range. */
  function Atoi(s: string): int {
    var body := if s != "" && (s[0] == '+' || s[0] == '-') then s[1..] else s;
    if body == "" || !AllDigits(body) then 0
    else if s[0] == '-' then (if Numeral(body) > MAX_INT64 then -MAX_INT64 - 1 else -Numeral(body))
    else if Numeral(body) > MAX_INT64 then MAX_INT64 else Numeral(body)
  }

  /** The last character of strconv.Itoa. */
  function LastDigit(x: int): char {
    ((if x < 0 then -x else x) % 10 + '0' as int) as char
  }

  function PrefixDigit(x: string, y: string): char {
    LastDigit(Wrap(Atoi(x) - Atoi(y)))
  }

  /** Each digit comes from subtracting whole prefixes, the first with a 1 in front. */
  function SubTenSpec(pin: string, decimalized: string, length: int): Result<string>
    decreases if length < 0 then 0 else length
  {
    if length <= 0 then Ok("")
    else
      var sub :- SubTenSpec(pin, decimalized, length - 1);
      if length > |pin| || length > |decimalized| then Panic
      else Ok(sub + [PrefixDigit("1" + pin[..length], decimalized[..length])])
  }

  lemma NextPrefixes(pin: string, decimalized: string, i: nat)
    requires i < |pin| && i < |decimalized|
    ensures ("1" + pin[..i]) + pin[i..i + 1] == "1" + pin[..i + 1]
    ensures decimalized[..i] + decimalized[i..i + 1] == decimalized[..i + 1]
  {
  }

  lemma SubTenNext(pin: string, decimalized: string, i: nat, sub: string, x: string, y: string)
    requires i < |pin| && i < |decimalized| && SubTenSpec(pin, decimalized, i) == Ok(sub)
    requires x == "1" + pin[..i + 1] && y == decimalized[..i + 1]
    ensures SubTenSpec(pin, decimalized, i + 1) == Ok(sub + [PrefixDigit(x, y)])
  {
  }

  lemma SubTenStops(pin: string, decimalized: string, i: nat, length: nat)
    requires i < length && (i >= |pin| || i >= |decimalized|) && SubTenSpec(pin, decimalized, i).Ok?
    ensures SubTenSpec(pin, decimalized, length).Panic?
  {
    assert SubTenSpec(pin, decimalized, i + 1).Panic?;
    SubTenPanics(pin, decimalized, i + 1, length);
  }

  method SubTen(pin: string, decimalized: string, length: int) returns (r: Result<string>)
    ensures r == SubTenSpec(pin, decimalized, length)
  {
    var sub, x1, y1 := "", "1", "";
    var i := 0;
    while i < length
      invariant 0 <= i && (i <= length || i == 0) && i <= |pin| && i <= |decimalized|
      invariant x1 == "1" + pin[..i] && y1 == decimalized[..i]
      invariant SubTenSpec(pin, decimalized, i) == Ok(sub)
    {
      if i >= |pin| || i >= |decimalized| {
        SubTenStops(pin, decimalized, i, length);
        return Panic;
      }
      NextPrefixes(pin, decimalized, i);
      x1 := x1 + pin[i..i + 1];
      y1 := y1 + decimalized[i..i + 1];
      SubTenNext(pin, decimalized, i, sub, x1, y1);
      sub := sub + [PrefixDigit(x1, y1)];
      i := i + 1;
    }
    return Ok(sub);
  }

  lemma {:induction false} SubTenPanics(pin: string, decimalized: string, i: nat, length: nat)
    requires 0 < i <= length && SubTenSpec(pin, decimalized, i).Panic?
    ensures SubTenSpec(pin, decimalized, length).Panic?
  {
    if i < length {
      SubTenPanics(pin, decimalized, i, length - 1);
    }
  }

  /** Independent subtraction modulo ten. */
  function SubDigit(p: char, d: char): char {
    ((DigitValue(p) - DigitValue(d)) % 10 + '0' as int) as char
  }

  function Digitwise(pin: string, decimalized: string, n: nat): string
    requires n <= |pin| && n <= |decimalized|
  {
    seq(n, i requires 0 <= i < n => SubDigit(pin[i], decimalized[i]))
  }

  function Pow10(n: nat): nat {
    if n == 0 then 1 else 10 * Pow10(n - 1)
  }

  lemma {:induction false} NumeralBounds(s: string)
    requires AllDigits(s)
    ensures 0 <= Numeral(s) < Pow10(|s|)
    ensures Numeral("1" + s) == Pow10(|s|) + Numeral(s)
  {
    if s == "" {
      assert ("1" + s)[..0] == "";
    } else {
      var rest := s[..|s| - 1];
      NumeralBounds(rest);
      assert ("1" + s)[..|s|] == "1" + rest;
    }
  }

  lemma {:induction false} Pow10Grows(a: nat, b: nat)
    requires a <= b
    ensures Pow10(a) <= Pow10(b)
    ensures b > 0 ==> Pow10(b) % 10 == 0
  {
    if a < b {
      Pow10Grows(a, b - 1);
    }
  }

  lemma Pow10Values()
    ensures Pow10(18) == 1_000_000_000_000_000_000
    ensures Pow10(19) == 10_000_000_000_000_000_000
  {
    assert Pow10(6) == 1_000_000;
    assert Pow10(12) == 1_000_000_000_000;
    assert Pow10(18) == 1_000_000_000_000_000_000;
  }

  lemma AtoiOfDigits(s: string)
    requires s != "" && AllDigits(s)
    ensures Atoi(s) == if Numeral(s) > MAX_INT64 then MAX_INT64 else Numeral(s)
  {
    assert IsDigit(s[0]);
  }

  lemma LastDigitOfDifference(q: int, dp: int, dd: int)
    requires 0 <= dp < 10 && 0 <= dd < 10 && 10 * q + (dp - dd) >= 0
    ensures (10 * q + (dp - dd)) % 10 == (dp - dd) % 10
  {
  }

  lemma NumeralFits(s: string)
    requires AllDigits(s) && |s| <= 18
    ensures 0 <= Numeral(s) < Pow10(|s|)
    ensures Numeral("1" + s) == Pow10(|s|) + Numeral(s) <= MAX_INT64
  {
    NumeralBounds(s);
    Pow10Values();
    Pow10Grows(|s|, 18);
  }

  lemma AtoiFits(s: string)
    requires s != "" && AllDigits(s) && |s| <= 18
    ensures Atoi(s) == Numeral(s) < Pow10(|s|) && 0 <= Atoi(s) <= MAX_INT64
  {
    NumeralFits(s);
    AtoiOfDigits(s);
  }

  lemma AtoiOfPrefixed(s: string)
    requires AllDigits(s) && |s| <= 18
    ensures Atoi("1" + s) == Pow10(|s|) + Numeral(s) <= MAX_INT64
  {
    NumeralFits(s);
    var one := "1" + s;
    assert one != "" && AllDigits(one);
    AtoiOfDigits(one);
  }

  /** Up to 18 digits the two prefixes never overflow, and their difference is never negative. */
  lemma PrefixDifference(p: string, d: string)
    requires AllDigits(p) && AllDigits(d) && 0 < |p| == |d| <= 18
    ensures 0 < Atoi("1" + p) - Atoi(d) <= MAX_INT64
    ensures Atoi("1" + p) - Atoi(d) == Pow10(|p|) + Numeral(p) - Numeral(d)
  {
    NumeralFits(p);
    AtoiOfPrefixed(p);
    AtoiFits(d);
  }

  /** The last digit of a difference of numerals, one with a power of ten in front. */
  lemma LastOfDifference(p: string, d: string, x: int)
    requires AllDigits(p) && AllDigits(d) && 0 < |p| == |d|
    requires x == Pow10(|p|) + Numeral(p) - Numeral(d) > 0
    ensures x % 10 == (DigitValue(p[|p| - 1]) - DigitValue(d[|d| - 1])) % 10
  {
    var dp, dd := DigitValue(p[|p| - 1]), DigitValue(d[|d| - 1]);
    var q := Pow10(|p| - 1) + Numeral(p[..|p| - 1]) - Numeral(d[..|d| - 1]);
    assert x == 10 * q + (dp - dd);
    LastDigitOfDifference(q, dp, dd);
  }

  lemma PrefixDigitOf(one: string, d: string, x: int)
    requires Atoi(one) - Atoi(d) == x && 0 < x <= MAX_INT64
    ensures PrefixDigit(one, d) == (x % 10 + '0' as int) as char
  {
    assert Wrap(x) == x;
  }

  lemma PrefixDigitIsSubDigit(p: string, d: string)
    requires AllDigits(p) && AllDigits(d) && 0 < |p| == |d| <= 18
    ensures PrefixDigit("1" + p, d) == SubDigit(p[|p| - 1], d[|d| - 1])
  {
    var x := Pow10(|p|) + Numeral(p) - Numeral(d);
    PrefixDifference(p, d);
    PrefixDigitOf("1" + p, d, x);
    LastOfDifference(p, d, x);
  }

  /** From the first character of a PIN that is no digit, the offset only repeats the decimalized digits. */
  lemma MalformedPrefixGivesBack(pin: string, d: string)
    requires !AllDigits(pin) && d != "" && AllDigits(d) && |d| <= 18
    ensures PrefixDigit("1" + pin, d) == d[|d| - 1]
  {
    AtoiFits(d);
    NumeralFits(d);
    AtoiOfMalformed(pin);
    LastDigitOfNegative("1" + pin, d, Numeral(d));
    LastOfNumeral(d);
  }

  lemma AtoiOfMalformed(pin: string)
    requires !AllDigits(pin)
    ensures Atoi("1" + pin) == 0
  {
    var one := "1" + pin;
    var i :| 0 <= i < |pin| && !IsDigit(pin[i]);
    assert one[0] == '1' && one[i + 1] == pin[i];
  }

  lemma LastDigitOfNegative(x: string, y: string, n: int)
    requires Atoi(x) == 0 && 0 <= n == Atoi(y) <= MAX_INT64
    ensures PrefixDigit(x, y) == (n % 10 + '0' as int) as char
  {
    assert Wrap(-n) == -n;
  }

  lemma LastOfNumeral(d: string)
    requires d != "" && AllDigits(d)
    ensures Numeral(d) >= 0 && (Numeral(d) % 10 + '0' as int) as char == d[|d| - 1]
  {
    NumeralBounds(d);
    LastDigitOfDifference(Numeral(d[..|d| - 1]), DigitValue(d[|d| - 1]), 0);
  }

  lemma DigitwiseNext(pin: string, decimalized: string, n: nat)
    requires 0 < n <= |pin| && n <= |decimalized|
    ensures Digitwise(pin, decimalized, n)
            == Digitwise(pin, decimalized, n - 1) + [SubDigit(pin[n - 1], decimalized[n - 1])]
  {
  }

  lemma SubTenStep(pin: string, decimalized: string, n: nat, sub: string, c: char)
    requires 0 < n <= |pin| && n <= |decimalized|
    requires sub == Digitwise(pin, decimalized, n - 1) && SubTenSpec(pin, decimalized, n - 1) == Ok(sub)
    requires c == SubDigit(pin[n - 1], decimalized[n - 1]) == PrefixDigit("1" + pin[..n], decimalized[..n])
    ensures SubTenSpec(pin, decimalized, n) == Ok(Digitwise(pin, decimalized, n))
  {
    SubTenNext(pin, decimalized, n - 1, sub, "1" + pin[..n], decimalized[..n]);
    DigitwiseNext(pin, decimalized, n);
  }

  lemma {:induction false} SubTenIsDigitwise(pin: string, decimalized: string, n: nat)
    requires AllDigits(pin) && AllDigits(decimalized)
    requires n <= 18 && n <= |pin| && n <= |decimalized|
    ensures SubTenSpec(pin, decimalized, n) == Ok(Digitwise(pin, decimalized, n))
  {
    if n > 0 {
      var sub := Digitwise(pin, decimalized, n - 1);
      SubTenIsDigitwise(pin, decimalized, n - 1);
      PrefixDigitIsSubDigit(pin[..n], decimalized[..n]);
      SubTenStep(pin, decimalized, n, sub, SubDigit(pin[n - 1], decimalized[n - 1]));
    } else {
      assert Digitwise(pin, decimalized, 0) == "";
    }
  }

  function Zeros(n: nat): (s: string)
    ensures |s| == n && AllDigits(s)
  {
    seq(n, _ => '0')
  }

  lemma {:induction false} NumeralOfZeros(n: nat)
    ensures Numeral(Zeros(n)) == 0
  {
    if n > 0 {
      assert Zeros(n)[..n - 1] == Zeros(n - 1);
      NumeralOfZeros(n - 1);
    }
  }

  /** From 19 digits on, the larger prefix no longer fits an int64: zero minus zero comes out as 7. */
  lemma LongZeroPrefix(n: nat)
    requires n >= 19
    ensures PrefixDigit("1" + Zeros(n), Zeros(n)) == '7'
  {
    var z := Zeros(n);
    NumeralBounds(z);
    NumeralOfZeros(n);
    Pow10Values();
    Pow10Grows(19, n);
    var one := "1" + z;
    assert AllDigits(one) && one[0] == '1' && Numeral(one) > MAX_INT64;
    assert Atoi(one) == MAX_INT64;
    assert z[0] == '0' && Atoi(z) == 0;
  }

  lemma LongZerosFail(n: nat)
    requires n >= 19
    ensures SubTenSpec(Zeros(n), Zeros(n), n) != Ok(Digitwise(Zeros(n), Zeros(n), n))
  {
    var z := Zeros(n);
    assert z[..n] == z;
    LongZeroPrefix(n);
    var r := SubTenSpec(z, z, n);
    if r.Ok? {
      assert r.value[|r.value| - 1] == '7';
      assert Digitwise(z, z, n)[n - 1] == '0';
    }
  }

  /**
    Main result. SubTen subtracts digit by digit modulo ten on all pairs of n-digit texts
    if and only if n is at most 18.
   */
  lemma SubTenDigitwiseExactly(n: nat)
    ensures (forall pin, decimalized ::
               |pin| == n && |decimalized| == n && AllDigits(pin) && AllDigits(decimalized)
               ==> SubTenSpec(pin, decimalized, n) == Ok(Digitwise(pin, decimalized, n)))
            <==> n <= 18
  {
    if n <= 18 {
      forall pin, decimalized | |pin| == n && |decimalized| == n && AllDigits(pin) && AllDigits(decimalized)
        ensures SubTenSpec(pin, decimalized, n) == Ok(Digitwise(pin, decimalized, n))
      {
        SubTenIsDigitwise(pin, decimalized, n);
      }
    } else {
      LongZerosFail(n);
    }
  }

  // ----- GenerateOffset -----

  function GenerateOffset(env: Des.Env, card: string, pvk: string, pin: string, pinlen: int): Result<string> {
    var cipherHex :- Des.EncryptHex(env, card, pvk);
    OffsetFrom(cipherHex, pin, pinlen)
  }

  function OffsetFrom(cipherHex: string, pin: string, pinlen: int): Result<string> {
    var decimalized :- DecimalizeSpec(cipherHex, pinlen, true);
    SubTenSpec(pin, decimalized, pinlen)
  }

  lemma AddBackDigit(p: char, d: char)
    requires IsDigit(p) && IsDigit(d)
    ensures IsDigit(SubDigit(p, d))
    ensures (DigitValue(SubDigit(p, d)) + DigitValue(d)) % 10 == DigitValue(p)
  {
  }

  lemma CipherIsUpperHex(env: Des.Env, card: string, pvk: string)
    requires Des.Lawful(env) && Des.KeyOk(pvk) && Hex.IsHex(card) && |card| == 16
    ensures var e := Des.EncryptHex(env, card, pvk);
            e.Ok? && |e.value| == 16 && UpperHex(e.value)
  {
    Hex.DecodesExactly(card);
    Des.DecryptInvertsEncrypt(env, card, pvk);
    var c := Des.CipherFor(env, Base64.Decode(Base64.Std, pvk).value).value;
    var sealed := Des.Ecb(c.enc, Hex.Decode(card).value);
    Hex.DecodeOfEncode(sealed);
    UpperHexOf(sealed);
  }

  lemma {:induction false} UpperHexOf(b: bytes)
    ensures UpperHex(Hex.Upper(Hex.Encode(b)))
  {
    if b != [] {
      UpperHexOf(b[1..]);
      Hex.LowerSplits(Hex.EncodeByte(b[0]), Hex.Encode(b[1..]));
    }
  }

  predicate RecoversAt(offset: char, cipher: char, pin: char) {
    && IsDigit(offset) && Hex.Value(cipher).Some?
    && (DigitValue(offset) + Hex.Value(cipher).value) % 10 == DigitValue(pin)
  }

  /** The offset's digits plus the cipher's hex values, modulo ten, are the PIN's digits. */
  predicate Recovers(offset: string, cipher: string, pin: string)
    requires |offset| <= |cipher| && |offset| <= |pin|
  {
    forall i :: 0 <= i < |offset| ==> RecoversAt(offset[i], cipher[i], pin[i])
  }

  lemma AddModTen(a: int, v: int)
    ensures (a + v) % 10 == (a + v % 10) % 10
  {
    assert a + v == (a + v % 10) + 10 * (v / 10);
  }

  lemma RecoversDigit(p: char, d: char, c: char)
    requires IsDigit(p) && IsDigit(d) && Hex.Value(c).Some? && DigitValue(d) == Hex.Value(c).value % 10
    ensures RecoversAt(SubDigit(p, d), c, p)
  {
    AddBackDigit(p, d);
    AddModTen(DigitValue(SubDigit(p, d)), Hex.Value(c).value);
  }

  predicate UpperHex(s: string) {
    forall c :: c in s ==> IsDigit(c) || IsLetter(c)
  }

  lemma OffsetIsDigitwise(cipher: string, decimalized: string, pin: string, n: nat)
    requires n <= |pin| && n <= |cipher| == 16 && AllDigits(pin) && AllDigits(decimalized)
    requires ImmediateAll(cipher[..n]) == Ok(decimalized) && |decimalized| == n
    ensures OffsetFrom(cipher, pin, n) == Ok(Digitwise(pin, decimalized, n))
  {
    SubTenIsDigitwise(pin, decimalized, n);
    assert Take(cipher, n) == cipher[..n];
  }

  lemma DigitwiseRecovers(cipher: string, decimalized: string, pin: string, n: nat)
    requires n <= |pin| && n <= |cipher| && AllDigits(pin) && UpperHex(cipher)
    requires ImmediateAll(cipher[..n]) == Ok(decimalized)
    ensures |decimalized| == n && AllDigits(decimalized)
    ensures Recovers(Digitwise(pin, decimalized, n), cipher, pin)
  {
    assert forall c :: c in cipher[..n] ==> c in cipher;
    ImmediateIsValueModTen(cipher[..n]);
    forall i | 0 <= i < n
      ensures RecoversAt(SubDigit(pin[i], decimalized[i]), cipher[i], pin[i])
    {
      assert cipher[..n][i] == cipher[i];
      RecoversDigit(pin[i], decimalized[i], cipher[i]);
    }
  }

  lemma ShortOffset(cipher: string, pin: string, pinlen: nat)
    requires |cipher| == 16 && UpperHex(cipher)
    requires AllDigits(pin) && pinlen <= |pin| && pinlen <= 16
    ensures var r := OffsetFrom(cipher, pin, pinlen);
            r.Ok? && |r.value| == pinlen && Recovers(r.value, cipher, pin)
  {
    assert forall c :: c in cipher[..pinlen] ==> c in cipher;
    ImmediateIsValueModTen(cipher[..pinlen]);
    var decimalized := ImmediateAll(cipher[..pinlen]).value;
    DigitwiseRecovers(cipher, decimalized, pin, pinlen);
    OffsetIsDigitwise(cipher, decimalized, pin, pinlen);
  }

  lemma LongOffset(cipher: string, pin: string, pinlen: nat)
    requires |cipher| == 16 && UpperHex(cipher)
    requires AllDigits(pin) && pinlen <= |pin| && pinlen > 16
    ensures OffsetFrom(cipher, pin, pinlen).Panic?
  {
    assert Take(cipher, pinlen) == cipher;
    ImmediateIsValueModTen(cipher);
    var decimalized := ImmediateAll(cipher).value;
    SubTenIsDigitwise(pin, decimalized, 16);
    assert SubTenSpec(pin, decimalized, 17).Panic?;
    SubTenPanics(pin, decimalized, 17, pinlen);
  }

  /**
    Main result. On a 16-digit card with a usable key and a PIN of at least the given length, an
    offset comes out if and only if that length is at most 16; it then has exactly that many
    digits, and adding the cipher's hex values back modulo ten recovers the PIN.
   */
  lemma OffsetRecoversPin(env: Des.Env, card: string, pvk: string, pin: string, pinlen: nat)
    requires Des.Lawful(env) && Des.KeyOk(pvk) && Hex.IsHex(card) && |card| == 16
    requires AllDigits(pin) && pinlen <= |pin|
    ensures var cipher := Des.EncryptHex(env, card, pvk);
            var r := GenerateOffset(env, card, pvk, pin, pinlen);
            && cipher.Ok? && |cipher.value| == 16
            && (r.Ok? <==> pinlen <= 16)
            && (r.Ok? ==> |r.value| == pinlen && Recovers(r.value, cipher.value, pin))
  {
    CipherIsUpperHex(env, card, pvk);
    var cipher := Des.EncryptHex(env, card, pvk).value;
    if pinlen <= 16 {
      ShortOffset(cipher, pin, pinlen);
    } else {
      LongOffset(cipher, pin, pinlen);
    }
  }
}
