/**
  PKCS#7 padding and AES in CBC mode (libCrypto/ssm/aes.go), over any block cipher: the
  AES rounds themselves are a parameter.
 */
module Aes {
  import opened Wrappers
  import opened Bytes
  import Base64

  const BLOCK := 16

  // ----- Padding (section 6.3 of RFC 5652) -----

  function Repeat(b: byte, n: nat): (r: bytes)
    ensures |r| == n
  {
    seq(n, _ => b)
  }

  function Pad(text: bytes): bytes {
    var n := BLOCK - |text| % BLOCK;
    text + Repeat(n, n)
  }

  /** Trusts the last byte; one that is larger than the text is a slice out of range. */
  function Unpad(text: bytes): Result<bytes> {
    var n := if |text| == 0 then 0 else text[|text| - 1];
    if n > |text| then Panic else Ok(text[..|text| - n])
  }

  lemma PadFillsWholeBlocks(text: bytes)
    ensures |Pad(text)| % BLOCK == 0
    ensures |text| < |Pad(text)| <= |text| + BLOCK
    ensures text <= Pad(text)
    ensures forall i :: |text| <= i < |Pad(text)| ==> Pad(text)[i] == |Pad(text)| - |text|
    ensures Unpad(Pad(text)) == Ok(text)
  {
    var n := BLOCK - |text| % BLOCK;
    assert Pad(text)[|Pad(text)| - 1] == n;
    assert Pad(text)[..|text|] == text;
  }

  // ----- Cipher block chaining (section 6.2 of NIST SP 800-38A) -----

  type Aes = BlockCipher<Block16>

  predicate WholeBlocks(text: bytes) {
    |text| % BLOCK == 0
  }

  function SealBlock(c: Aes, block: Block16, prev: Block16): Block16 {
    c.enc(XorAll(block, prev))
  }

  function OpenBlock(c: Aes, block: Block16, prev: Block16): Block16 {
    XorAll(c.dec(block), prev)
  }

  function CbcEncrypt(c: Aes, iv: Block16, text: bytes): (r: bytes)
    requires WholeBlocks(text)
    ensures |r| == |text|
    decreases |text|
  {
    if text == [] then []
    else
      var x := SealBlock(c, text[..BLOCK], iv);
      x + CbcEncrypt(c, x, text[BLOCK..])
  }

  function CbcDecrypt(c: Aes, iv: Block16, text: bytes): (r: bytes)
    requires WholeBlocks(text)
    ensures |r| == |text|
    decreases |text|
  {
    if text == [] then []
    else
      OpenBlock(c, text[..BLOCK], iv) + CbcDecrypt(c, text[..BLOCK], text[BLOCK..])
  }

  lemma {:induction false} CbcDecryptInverts(c: Aes, iv: Block16, text: bytes)
    requires WholeBlocks(text) && Invertible(c)
    ensures CbcDecrypt(c, iv, CbcEncrypt(c, iv, text)) == text
    decreases |text|
  {
    if text != [] {
      var first, rest := text[..BLOCK], text[BLOCK..];
      var x := SealBlock(c, first, iv);
      var all := CbcEncrypt(c, iv, text);
      assert all[..BLOCK] == x && all[BLOCK..] == CbcEncrypt(c, x, rest);
      XorAllTwice(first, iv);
      CbcDecryptInverts(c, x, rest);
      assert first + rest == text;
    }
  }

  /** The i-th block of a text. */
  function BlockAt(text: bytes, i: nat): Block16
    requires 16 * i + 16 <= |text|
  {
    text[16 * i..16 * i + 16]
  }

  /** z is the byte-wise exclusive or of two blocks. */
  predicate IsXorBlock(z: Block16, a: Block16, b: Block16) {
    forall j :: 0 <= j < 16 ==> IsXor(z[j], a[j], b[j], 8)
  }

  lemma XorBlock(a: Block16, b: Block16)
    ensures IsXorBlock(XorAll(a, b), a, b)
  {
    forall j | 0 <= j < 16
      ensures IsXor(XorAll(a, b)[j], a[j], b[j], 8)
    {
      XorIsXor(a[j], b[j]);
    }
  }

  /**
    Main result, block by block: the cipher's image of the plain block, xored with the cipher
    block before it, or with the initialization vector for the first.
   */
  lemma {:induction false} CbcEncryptsBlocks(c: Aes, iv: Block16, text: bytes, i: nat) returns (mixed: Block16)
    requires WholeBlocks(text) && 16 * i + 16 <= |text|
    ensures var out := CbcEncrypt(c, iv, text);
            && IsXorBlock(mixed, BlockAt(text, i), if i == 0 then iv else BlockAt(out, i - 1))
            && BlockAt(out, i) == c.enc(mixed)
    decreases i
  {
    var first, rest := text[..BLOCK], text[BLOCK..];
    var x := SealBlock(c, first, iv);
    var out := CbcEncrypt(c, iv, text);
    assert out[..BLOCK] == x && out[BLOCK..] == CbcEncrypt(c, x, rest);
    if i == 0 {
      mixed := XorAll(first, iv);
      XorBlock(first, iv);
    } else {
      mixed := CbcEncryptsBlocks(c, x, rest, i - 1);
      LaterBlock(text, rest, i);
      LaterBlock(out, out[BLOCK..], i);
      if i > 1 {
        LaterBlock(out, out[BLOCK..], i - 1);
      } else {
        assert BlockAt(out, 0) == x;
      }
    }
  }

  lemma LaterBlock(text: bytes, rest: bytes, i: nat)
    requires i > 0 && 16 * i + 16 <= |text| && rest == text[BLOCK..]
    ensures BlockAt(text, i) == BlockAt(rest, i - 1)
  {
  }

  /** Decryption of any whole blocks: each deciphered, then xored with the cipher block before it. */
  lemma {:induction false} CbcDecryptsBlocks(c: Aes, iv: Block16, text: bytes, i: nat)
    requires WholeBlocks(text) && 16 * i + 16 <= |text|
    ensures IsXorBlock(BlockAt(CbcDecrypt(c, iv, text), i), c.dec(BlockAt(text, i)),
                       if i == 0 then iv else BlockAt(text, i - 1))
    decreases i
  {
    var first, rest := text[..BLOCK], text[BLOCK..];
    var out := CbcDecrypt(c, iv, text);
    assert out[..BLOCK] == OpenBlock(c, first, iv) && out[BLOCK..] == CbcDecrypt(c, first, rest);
    if i == 0 {
      XorBlock(c.dec(first), iv);
    } else {
      CbcDecryptsBlocks(c, first, rest, i - 1);
      LaterBlock(text, rest, i);
      LaterBlock(out, out[BLOCK..], i);
      if i > 1 {
        LaterBlock(text, rest, i - 1);
      } else {
        assert BlockAt(text, 0) == first;
      }
    }
  }

  lemma EncryptStep(c: Aes, prev: Block16, src: bytes, i: nat, done: bytes)
    requires i < |src| && WholeBlocks(src[i..])
    ensures i + BLOCK <= |src| && WholeBlocks(src[i + BLOCK..])
    ensures var x := SealBlock(c, src[i..i + BLOCK], prev);
            done + CbcEncrypt(c, prev, src[i..]) == (done + x) + CbcEncrypt(c, x, src[i + BLOCK..])
  {
    assert src[i..][..BLOCK] == src[i..i + BLOCK] && src[i..][BLOCK..] == src[i + BLOCK..];
    var x := SealBlock(c, src[i..i + BLOCK], prev);
    assert done + (x + CbcEncrypt(c, x, src[i + BLOCK..])) == (done + x) + CbcEncrypt(c, x, src[i + BLOCK..]);
  }

  lemma DecryptStep(c: Aes, prev: Block16, src: bytes, i: nat, done: bytes)
    requires i < |src| && WholeBlocks(src[i..])
    ensures i + BLOCK <= |src| && WholeBlocks(src[i + BLOCK..])
    ensures var block := src[i..i + BLOCK];
            done + CbcDecrypt(c, prev, src[i..])
            == (done + OpenBlock(c, block, prev)) + CbcDecrypt(c, block, src[i + BLOCK..])
  {
    assert src[i..][..BLOCK] == src[i..i + BLOCK] && src[i..][BLOCK..] == src[i + BLOCK..];
    var block := src[i..i + BLOCK];
    var x, rest := OpenBlock(c, block, prev), CbcDecrypt(c, block, src[i + BLOCK..]);
    assert done + (x + rest) == (done + x) + rest;
  }

  /** Fills dst block by block, chaining on the block just written. */
  method EncryptBlocks(c: Aes, iv: Block16, src: bytes, dst: array<byte>)
    requires WholeBlocks(src) && dst.Length == |src|
    modifies dst
    ensures dst[..] == CbcEncrypt(c, iv, src)
  {
    var i, prev: Block16 := 0, iv;
    while i < |src|
      invariant 0 <= i <= |src| && WholeBlocks(src[i..])
      invariant CbcEncrypt(c, iv, src) == dst[..i] + CbcEncrypt(c, prev, src[i..])
    {
      EncryptStep(c, prev, src, i, dst[..i]);
      var x := SealBlock(c, src[i..i + BLOCK], prev);
      Store(dst, i, x);
      i, prev := i + BLOCK, x;
    }
    assert dst[..i] == dst[..];
  }

  method DecryptBlocks(c: Aes, iv: Block16, src: bytes, dst: array<byte>)
    requires WholeBlocks(src) && dst.Length == |src|
    modifies dst
    ensures dst[..] == CbcDecrypt(c, iv, src)
  {
    var i, prev: Block16 := 0, iv;
    while i < |src|
      invariant 0 <= i <= |src| && WholeBlocks(src[i..])
      invariant CbcDecrypt(c, iv, src) == dst[..i] + CbcDecrypt(c, prev, src[i..])
    {
      DecryptStep(c, prev, src, i, dst[..i]);
      var block: Block16 := src[i..i + BLOCK];
      Store(dst, i, OpenBlock(c, block, prev));
      i, prev := i + BLOCK, block;
    }
    assert dst[..i] == dst[..];
  }

  // ----- AesEncrypt and AesDecrypt -----

  /**
    What lies outside: the cipher for a key, and the bytes Base64 decoding leaves behind
    when it fails (aes.go ignores that error).
   */
  datatype Env = Env(cipher: bytes -> Aes, leftover: string -> bytes)

  function Lenient(env: Env, s: string): bytes {
    match Base64.Decode(Base64.Std, s)
    case Some(b) => b
    case None => env.leftover(s)
  }

  /** aes.NewCipher refuses other key sizes with an error; CBC panics on another IV size. */
  predicate KeySizeOk(key: bytes) {
    |key| == 16 || |key| == 24 || |key| == 32
  }

  function Encrypt(env: Env, keyB64: string, ivB64: string, text: GoString): Result<GoString> {
    var key, iv := Lenient(env, keyB64), Lenient(env, ivB64);
    PadFillsWholeBlocks(ToBytes(text));
    if !KeySizeOk(key) then Error("Aes Cipher")
    else if |iv| != BLOCK then Panic
    else Ok(Base64.Encode(Base64.Std, CbcEncrypt(env.cipher(key), iv, Pad(ToBytes(text)))))
  }

  function Decrypt(env: Env, keyB64: string, ivB64: string, textB64: string): Result<GoString> {
    var key, iv := Lenient(env, keyB64), Lenient(env, ivB64);
    var text := Lenient(env, textB64);
    if !KeySizeOk(key) then Error("Aes Cipher")
    else if |iv| != BLOCK || !WholeBlocks(text) then Panic
    else
      var plain :- Unpad(CbcDecrypt(env.cipher(key), iv, text));
      Ok(Base64.Encode(Base64.Std, plain))
  }

  method AesEncrypt(env: Env, keyB64: string, ivB64: string, text: GoString) returns (r: Result<GoString>)
    ensures r == Encrypt(env, keyB64, ivB64, text)
  {
    var plain := ToBytes(text);
    var key, iv := Lenient(env, keyB64), Lenient(env, ivB64);
    PadFillsWholeBlocks(plain);
    plain := Pad(plain);
    var buffer := new byte[|plain|];
    if !KeySizeOk(key) {
      return Error("Aes Cipher");
    }
    if |iv| != BLOCK {
      return Panic;
    }
    EncryptBlocks(env.cipher(key), iv, plain, buffer);
    r := Ok(Base64.Encode(Base64.Std, buffer[..]));
  }

  method AesDecrypt(env: Env, keyB64: string, ivB64: string, textB64: string) returns (r: Result<GoString>)
    ensures r == Decrypt(env, keyB64, ivB64, textB64)
  {
    var key, iv := Lenient(env, keyB64), Lenient(env, ivB64);
    var text := Lenient(env, textB64);
    if !KeySizeOk(key) {
      return Error("Aes Cipher");
    }
    var buffer := new byte[|text|];
    if |iv| != BLOCK || !WholeBlocks(text) {
      return Panic;
    }
    DecryptBlocks(env.cipher(key), iv, text, buffer);
    var plain := Unpad(buffer[..]);
    r := if plain.Ok? then Ok(Base64.Encode(Base64.Std, plain.value)) else Panic;
  }

  /**
    Main result, byte for byte: an encrypted text decodes to as many whole blocks as the text and
    its 1 to 16 padding bytes fill, chained and enciphered under the decoded key.
   */
  lemma CipherTextExactly(env: Env, keyB64: string, ivB64: string, text: GoString, padded: bytes, i: nat)
    returns (mixed: Block16)
    requires Encrypt(env, keyB64, ivB64, text).Ok?
    requires |padded| % 16 == 0 && |text| < |padded| <= |text| + 16
    requires ToBytes(text) <= padded
    requires forall j :: |text| <= j < |padded| ==> padded[j] == |padded| - |text|
    requires 16 * i + 16 <= |padded|
    ensures |Lenient(env, ivB64)| == 16
    ensures var out := Base64.Decode(Base64.Std, Encrypt(env, keyB64, ivB64, text).value);
            && out.Some? && |out.value| == |padded|
            && IsXorBlock(mixed, BlockAt(padded, i),
                          if i == 0 then Lenient(env, ivB64) else BlockAt(out.value, i - 1))
            && BlockAt(out.value, i) == env.cipher(Lenient(env, keyB64)).enc(mixed)
  {
    var plain := ToBytes(text);
    PadFillsWholeBlocks(plain);
    PaddingIsUnique(plain, padded);
    var out := CbcEncrypt(env.cipher(Lenient(env, keyB64)), Lenient(env, ivB64), padded);
    Base64.DecodeOfEncode(Base64.Std, out);
    mixed := CbcEncryptsBlocks(env.cipher(Lenient(env, keyB64)), Lenient(env, ivB64), padded, i);
  }

  lemma PaddingIsUnique(plain: bytes, padded: bytes)
    requires |padded| % 16 == 0 && |plain| < |padded| <= |plain| + 16 && plain <= padded
    requires forall j :: |plain| <= j < |padded| ==> padded[j] == |padded| - |plain|
    ensures padded == Pad(plain)
  {
    PadFillsWholeBlocks(plain);
    assert |padded| == |Pad(plain)|;
    assert padded[..|plain|] == plain == Pad(plain)[..|plain|];
    assert forall j :: 0 <= j < |padded| ==> padded[j] == Pad(plain)[j];
  }

  /** Encryption succeeds exactly with a usable key and IV; decryption then gives the text in Base64. */
  lemma DecryptInvertsEncrypt(env: Env, keyB64: string, ivB64: string, text: GoString)
    requires forall k :: Invertible(env.cipher(k))
    ensures var e := Encrypt(env, keyB64, ivB64, text);
            && (e.Ok? <==> |Lenient(env, keyB64)| in {16, 24, 32} && |Lenient(env, ivB64)| == 16)
            && (e.Ok? ==> e.value != "")
            && (e.Ok? ==> Decrypt(env, keyB64, ivB64, e.value) == Ok(Base64.Encode(Base64.Std, ToBytes(text))))
  {
    var key, iv := Lenient(env, keyB64), Lenient(env, ivB64);
    if KeySizeOk(key) && |iv| == BLOCK {
      var plain := ToBytes(text);
      PadFillsWholeBlocks(plain);
      var sealed := CbcEncrypt(env.cipher(key), iv, Pad(plain));
      Base64.DecodeOfEncode(Base64.Std, sealed);
      Base64.EncodeEmptyOnlyForEmpty(Base64.Std, sealed);
      CbcDecryptInverts(env.cipher(key), iv, Pad(plain));
    }
  }
}
