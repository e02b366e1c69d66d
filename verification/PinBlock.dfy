/** PIN blocks (libCrypto/ssm/ssm.go), format 0 of ISO 9564-1: length, PIN and fill, xor the PAN. */
module PinBlock {
  import opened Wrappers
  import opened Numbers
  import opened Bytes
  import Hex
  import Des

  function Fill(n: nat): (s: string)
    ensures |s| == n
  {
    seq(n, _ => 'F')
  }

  /** The clear block; a PIN of any other length leaves it empty. */
  function ClearBlock(pin: string): string {
    if 4 <= |pin| <= 12 then ['0', "0123456789ABC"[|pin|]] + pin + Fill(14 - |pin|) else ""
  }

  /** The account part: slicing a PAN shorter than 15 characters panics. */
  function PanBlock(pan: string): Result<bytes> {
    if |pan| < 15 then Panic
    else match Hex.Decode("0000" + pan[3..15])
         case None => Error("Hex T2")
         case Some(b) => Ok(b)
  }

  function Build(env: Des.Env, pan: string, pin: string, tpk: string): Result<string> {
    match Hex.Decode(ClearBlock(pin))
    case None => Error("Hex T1")
    case Some(b1) =>
      var b2 :- PanBlock(pan);
      if |b2| < |b1| then Panic else Des.EncryptHex(env, Hex.Encode(XorAll(b1, b2)), tpk)
  }

  /** The lengths decoding knows; the last three never match, hex text being lower case here. */
  function LengthOf(code: string): nat {
    if code == "04" then 4 else if code == "05" then 5 else if code == "06" then 6
    else if code == "07" then 7 else if code == "08" then 8 else if code == "09" then 9
    else if code == "0A" then 10 else if code == "0B" then 11 else if code == "0C" then 12 else 0
  }

  function ExtractPin(block: string): Result<string> {
    if |block| < 2 then Panic
    else
      var n := LengthOf(block[..2]);
      if |block| < 2 + n then Panic else Ok(block[2..2 + n])
  }

  function Decode(env: Des.Env, pan: string, pinBlock: string, tpk: string): Result<string> {
    var tspHex :- Des.DecryptHex(env, pinBlock, tpk);
    match Hex.Decode(tspHex)
    case None => Error("invalid hex text")
    case Some(tsp) =>
      var b2 :- PanBlock(pan);
      if |b2| < |tsp| then Panic
      else
        ExtractPin(Hex.Encode(XorAll(tsp, b2)))
  }

  function Translate(env: Des.Env, pan: string, pinBlock: string, tpk: string, tpk2: string): Result<string> {
    var pin :- Decode(env, pan, pinBlock, tpk);
    Build(env, pan, pin, tpk2)
  }

  /** The loop of PinBlock and PinBlockDecode. */
  method XorInto(a: bytes, b: bytes) returns (r: Result<bytes>)
    ensures r == if |b| < |a| then Panic else Ok(XorAll(a, b))
    ensures r.Ok? ==> |r.value| == |a| <= |b| && forall i :: 0 <= i < |a| ==> IsXor(r.value[i], a[i], b[i], 8)
  {
    var out := new byte[|a|];
    for i := 0 to |a|
      invariant i <= |b|
      invariant forall j :: 0 <= j < i ==> out[j] == Xor(a[j], b[j])
    {
      if i >= |b| {
        return Panic;
      }
      out[i] := Xor(a[i], b[i]);
    }
    assert out[..] == XorAll(a, b);
    forall i | 0 <= i < |a|
      ensures IsXor(out[i], a[i], b[i], 8)
    {
      XorIsXor(a[i], b[i]);
    }
    return Ok(out[..]);
  }

  // ----- Decoding a built block -----

  lemma IsHexOfParts(pin: string)
    requires 4 <= |pin| <= 12
    ensures |ClearBlock(pin)| == 16
    ensures Hex.IsHex(ClearBlock(pin)) <==> Hex.IsHex(pin)
  {
    var head, fill := ['0', "0123456789ABC"[|pin|]], Fill(14 - |pin|);
    assert forall c :: c in ClearBlock(pin) <==> c in head || c in pin || c in fill;
    assert Hex.IsHex(head) && Hex.IsHex(fill);
  }

  /** Building succeeds exactly for a usable key, a hex PAN part, and a hex PIN unless its length is unknown. */
  lemma BuildsExactly(env: Des.Env, pan: string, pin: string, tpk: string)
    requires Des.Lawful(env)
    ensures Build(env, pan, pin, tpk).Ok?
            <==> Des.KeyOk(tpk) && PanBlock(pan).Ok? && (4 <= |pin| <= 12 ==> Hex.IsHex(pin))
  {
    var clear := ClearBlock(pin);
    Hex.DecodesExactly(clear);
    if 4 <= |pin| <= 12 {
      IsHexOfParts(pin);
    }
    if |pan| >= 15 {
      Hex.DecodesExactly("0000" + pan[3..15]);
    }
    if Hex.Decode(clear).Some? && PanBlock(pan).Ok? {
      var x := XorAll(Hex.Decode(clear).value, PanBlock(pan).value);
      Hex.DecodeOfEncode(x);
      if Des.KeyOk(tpk) {
        Des.DecryptInvertsEncrypt(env, Hex.Encode(x), tpk);
      }
    }
  }

  /** Digits for lengths 4 to 9, silently no PIN for 10 to 12, and a panic for an empty block. */
  function Extracted(pin: string): Result<string> {
    if 4 <= |pin| <= 9 then Ok(Hex.Lower(pin)) else if 10 <= |pin| <= 12 then Ok("") else Panic
  }

  lemma CodeOfLength(n: nat)
    requires 4 <= n <= 12
    ensures LengthOf(['0', "0123456789abc"[n]]) == if n <= 9 then n else 0
  {
    assert n in {4, 5, 6, 7, 8, 9, 10, 11, 12};
  }

  lemma LowerClearBlock(pin: string)
    requires 4 <= |pin| <= 12
    ensures var block := Hex.Lower(ClearBlock(pin));
            && |block| == 16
            && block[..2] == ['0', "0123456789abc"[|pin|]]
            && block[2..2 + |pin|] == Hex.Lower(pin)
  {
    var block := Hex.Lower(ClearBlock(pin));
    var code := "0123456789ABC"[|pin|];
    assert Hex.LowerChar(code) == "0123456789abc"[|pin|] by {
      assert |pin| in {4, 5, 6, 7, 8, 9, 10, 11, 12};
    }
    assert block[0] == '0' && block[1] == Hex.LowerChar(code);
    forall i | 0 <= i < |pin|
      ensures block[2 + i] == Hex.LowerChar(pin[i])
    {
      assert ClearBlock(pin)[2 + i] == pin[i];
    }
  }

  lemma ExtractOfClear(pin: string)
    ensures ExtractPin(Hex.Lower(ClearBlock(pin))) == Extracted(pin)
  {
    if 4 <= |pin| <= 12 {
      LowerClearBlock(pin);
      CodeOfLength(|pin|);
      assert |pin| > 9 ==> Hex.Lower(ClearBlock(pin))[2..2] == "";
    }
  }

  lemma DecodeOfSealed(env: Des.Env, pan: string, b1: bytes, tpk: string)
    requires Des.Lawful(env) && Des.KeyOk(tpk) && PanBlock(pan).Ok?
    requires Des.WholeBlocks(b1) && |b1| <= |PanBlock(pan).value|
    ensures var e := Des.EncryptHex(env, Hex.Encode(XorAll(b1, PanBlock(pan).value)), tpk);
            e.Ok? && Decode(env, pan, e.value, tpk) == ExtractPin(Hex.Encode(b1))
  {
    var x := XorAll(b1, PanBlock(pan).value);
    Hex.DecodeOfEncode(x);
    Des.DecryptInvertsEncrypt(env, Hex.Encode(x), tpk);
    XorAllTwice(b1, PanBlock(pan).value);
  }

  lemma PanBlockIsOneBlock(pan: string)
    requires PanBlock(pan).Ok?
    ensures |PanBlock(pan).value| == Des.BLOCK
  {
    Hex.DecodesExactly("0000" + pan[3..15]);
  }

  /** The clear block decodes to one block of bytes, or to none. */
  lemma ClearBytes(pin: string, b1: bytes)
    requires Hex.Decode(ClearBlock(pin)) == Some(b1)
    ensures |b1| == (if 4 <= |pin| <= 12 then Des.BLOCK else 0)
    ensures Hex.Encode(b1) == Hex.Lower(ClearBlock(pin))
  {
    Hex.DecodesExactly(ClearBlock(pin));
    Hex.EncodeOfDecode(ClearBlock(pin));
  }

  /** What decoding a built block gives, for every PIN. */
  lemma DecodeOfBuilt(env: Des.Env, pan: string, pin: string, tpk: string)
    requires Des.Lawful(env)
    ensures var built := Build(env, pan, pin, tpk);
            built.Ok? ==> Decode(env, pan, built.value, tpk) == Extracted(pin)
  {
    if Build(env, pan, pin, tpk).Ok? {
      BuildsExactly(env, pan, pin, tpk);
      var b1 := Hex.Decode(ClearBlock(pin)).value;
      ClearBytes(pin, b1);
      PanBlockIsOneBlock(pan);
      DecodeOfSealed(env, pan, b1, tpk);
      ExtractOfClear(pin);
    }
  }

  lemma DigitsAreHex(s: string)
    requires AllDigits(s)
    ensures Hex.IsHex(s) && Hex.Lower(s) == s
  {
    assert forall i :: 0 <= i < |s| ==> IsDigit(s[i]) && Hex.LowerChar(s[i]) == s[i];
  }

  /**
    Main result. For every all-digit PIN, PAN of at least 15 digits and usable key, the PIN comes
    back out of its block if and only if it has 4 to 9 digits.
   */
  lemma PinRoundTripsExactly(env: Des.Env, pan: string, pin: string, tpk: string)
    requires Des.Lawful(env) && Des.KeyOk(tpk)
    requires AllDigits(pan) && |pan| >= 15 && AllDigits(pin)
    ensures var built := Build(env, pan, pin, tpk);
            built.Ok? && (Decode(env, pan, built.value, tpk) == Ok(pin) <==> 4 <= |pin| <= 9)
  {
    DigitsAreHex(pin);
    DigitsAreHex("0000" + pan[3..15]);
    Hex.DecodesExactly("0000" + pan[3..15]);
    BuildsExactly(env, pan, pin, tpk);
    DecodeOfBuilt(env, pan, pin, tpk);
  }

  /** Translation gives the block built under the second key; a PIN of 10 to 12 digits becomes an empty one. */
  lemma TranslateRebuilds(env: Des.Env, pan: string, pin: string, tpk: string, tpk2: string)
    requires Des.Lawful(env) && Des.KeyOk(tpk) && Des.KeyOk(tpk2)
    requires AllDigits(pan) && |pan| >= 15 && AllDigits(pin) && 4 <= |pin| <= 12
    ensures var built := Build(env, pan, pin, tpk);
            && built.Ok? && Build(env, pan, pin, tpk2).Ok?
            && Translate(env, pan, built.value, tpk, tpk2)
               == if |pin| <= 9 then Build(env, pan, pin, tpk2) else Ok("")
  {
    PinRoundTripsExactly(env, pan, pin, tpk);
    PinRoundTripsExactly(env, pan, pin, tpk2);
    DecodeOfBuilt(env, pan, pin, tpk);
    if |pin| > 9 {
      assert XorAll([], PanBlock(pan).value) == [];
    }
  }

  // ----- The text under a PIN block (format 0 of ISO 9564-1) -----

  /** The PIN field: 0, the length, the digits, and F to the end. */
  function PinNibble(pin: string, k: nat): int {
    if k == 0 then 0
    else if k == 1 then |pin|
    else if k - 2 < |pin| then DigitValue(pin[k - 2])
    else 15
  }

  /** The account field: four zeros and twelve characters of the PAN, from the fourth on. */
  function PanNibble(pan: string, k: nat): int
    requires k < 16 && |pan| >= 15
  {
    if k < 4 then 0 else DigitValue(pan[k - 1])
  }

  lemma DigitHasItsValue(c: char)
    requires IsDigit(c)
    ensures Hex.Value(c) == Some(DigitValue(c))
  {
  }

  lemma ClearNibble(pin: string, k: nat)
    requires 4 <= |pin| <= 12 && AllDigits(pin) && k < 16
    ensures |ClearBlock(pin)| == 16 && Hex.Value(ClearBlock(pin)[k]) == Some(PinNibble(pin, k))
  {
    if k == 1 {
      assert |pin| in {4, 5, 6, 7, 8, 9, 10, 11, 12};
    } else if 2 <= k < 2 + |pin| {
      assert ClearBlock(pin)[k] == pin[k - 2];
      DigitHasItsValue(pin[k - 2]);
    }
  }

  lemma AccountNibble(pan: string, k: nat)
    requires |pan| >= 15 && AllDigits(pan) && k < 16
    ensures var s := "0000" + pan[3..15]; |s| == 16 && Hex.Value(s[k]) == Some(PanNibble(pan, k))
  {
    if k >= 4 {
      DigitHasItsValue(pan[k - 1]);
    }
  }

  lemma XoredNibble(b1: bytes, b2: bytes, k: nat)
    requires |b1| <= |b2| && k < 2 * |b1|
    ensures IsXor(Hex.NibbleAt(XorAll(b1, b2), k), Hex.NibbleAt(b1, k), Hex.NibbleAt(b2, k), 4)
  {
    XorIsXor(b1[k / 2], b2[k / 2]);
    XorOfNibbles(XorAll(b1, b2)[k / 2], b1[k / 2], b2[k / 2]);
  }

  /** The two fields as bytes. */
  lemma FieldsDecode(pan: string, pin: string) returns (b1: bytes, b2: bytes)
    requires 4 <= |pin| <= 12 && AllDigits(pin) && |pan| >= 15 && AllDigits(pan)
    ensures Hex.Decode(ClearBlock(pin)) == Some(b1) && Hex.Decode("0000" + pan[3..15]) == Some(b2)
    ensures |b1| == |b2| == 8
  {
    DigitsAreHex(pin);
    DigitsAreHex("0000" + pan[3..15]);
    IsHexOfParts(pin);
    Hex.DecodesExactly(ClearBlock(pin));
    Hex.DecodesExactly("0000" + pan[3..15]);
    b1, b2 := Hex.Decode(ClearBlock(pin)).value, Hex.Decode("0000" + pan[3..15]).value;
  }

  /**
    Main result, position by position. What goes under the cipher is sixteen hex digits, each the
    exclusive or of the PIN field's and the account field's digit there.
   */
  lemma PlainBlockExactly(env: Des.Env, pan: string, pin: string, tpk: string)
    returns (plain: string, digits: seq<nat>)
    requires 4 <= |pin| <= 12 && AllDigits(pin) && |pan| >= 15 && AllDigits(pan)
    ensures Build(env, pan, pin, tpk) == Des.EncryptHex(env, plain, tpk)
    ensures |plain| == |digits| == 16
    ensures forall k :: 0 <= k < 16 ==>
              && digits[k] < 16 && plain[k] == Hex.DIGITS[digits[k]]
              && PinNibble(pin, k) >= 0 && PanNibble(pan, k) >= 0
              && IsXor(digits[k], PinNibble(pin, k), PanNibble(pan, k), 4)
  {
    var b1, b2 := FieldsDecode(pan, pin);
    var x := XorAll(b1, b2);
    plain := Hex.Encode(x);
    digits := seq(16, k requires 0 <= k < 16 => Hex.NibbleAt(x, k));
    Hex.DecodeOfEncode(x);
    forall k | 0 <= k < 16
      ensures plain[k] == Hex.DIGITS[digits[k]]
      ensures PinNibble(pin, k) >= 0 && PanNibble(pan, k) >= 0
      ensures IsXor(digits[k], PinNibble(pin, k), PanNibble(pan, k), 4)
    {
      Hex.EncodeAt(x, k);
      ClearNibble(pin, k);
      AccountNibble(pan, k);
      Hex.DecodeAt(ClearBlock(pin), b1, k);
      Hex.DecodeAt("0000" + pan[3..15], b2, k);
      XoredNibble(b1, b2, k);
    }
  }
}
