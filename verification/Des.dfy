/** DES and triple DES in ECB mode with hex text and a Base64 key (libCrypto/ssm/des.go). */
module Des {
  import opened Wrappers
  import opened Bytes
  import Base64
  import Hex

  const BLOCK := 8

  type Des = BlockCipher<Block8>

  /** The ciphers Go's crypto/des makes from a key of 8 and of 24 bytes. */
  datatype Env = Env(single: bytes -> Des, triple: bytes -> Des)

  ghost predicate Lawful(env: Env) {
    (forall k :: Invertible(env.single(k))) && (forall k :: Invertible(env.triple(k)))
  }

  /** A 16-byte key is completed with its own first half; other sizes must be 24. */
  function CipherFor(env: Env, key: bytes): Option<Des> {
    if |key| == 8 then Some(env.single(key))
    else if |key| == 16 then Some(env.triple(key + key[..8]))
    else if |key| == 24 then Some(env.triple(key))
    else None
  }

  predicate WholeBlocks(data: bytes) {
    |data| % BLOCK == 0
  }

  function Ecb(f: Block8 -> Block8, data: bytes): (r: bytes)
    requires WholeBlocks(data)
    ensures |r| == |data|
  {
    if data == [] then [] else f(data[..BLOCK]) + Ecb(f, data[BLOCK..])
  }

  lemma {:induction false} EcbInverts(c: Des, data: bytes)
    requires WholeBlocks(data) && Invertible(c)
    ensures Ecb(c.dec, Ecb(c.enc, data)) == data
  {
    if data != [] {
      var first, rest: bytes := data[..BLOCK], data[BLOCK..];
      var all := Ecb(c.enc, data);
      assert all[..BLOCK] == c.enc(first) && all[BLOCK..] == Ecb(c.enc, rest);
      EcbInverts(c, rest);
      assert first + rest == data;
    }
  }

  lemma SliceOfRest(data: bytes, rest: bytes, k: nat)
    requires BLOCK <= |data| && rest == data[BLOCK..] && k + 8 <= |rest|
    ensures rest[k..k + 8] == data[k + 8..k + 16]
  {
  }

  /** Every block is the cipher's image of the block at the same place. */
  lemma {:induction false} EcbAt(f: Block8 -> Block8, data: bytes, i: nat)
    requires WholeBlocks(data) && 8 * i + 8 <= |data|
    ensures Ecb(f, data)[8 * i..8 * i + 8] == f(data[8 * i..8 * i + 8])
    decreases i
  {
    var rest := data[BLOCK..];
    var out := Ecb(f, data);
    assert out[..BLOCK] == f(data[..BLOCK]) && out[BLOCK..] == Ecb(f, rest);
    if i > 0 {
      EcbAt(f, rest, i - 1);
      SliceOfRest(data, rest, 8 * (i - 1));
      SliceOfRest(out, out[BLOCK..], 8 * (i - 1));
    }
  }

  lemma EcbStep(f: Block8 -> Block8, data: bytes, i: nat, done: bytes)
    requires i < |data| && WholeBlocks(data[i..])
    ensures i + BLOCK <= |data| && WholeBlocks(data[i + BLOCK..])
    ensures done + Ecb(f, data[i..]) == (done + f(data[i..i + BLOCK])) + Ecb(f, data[i + BLOCK..])
  {
    assert data[i..][..BLOCK] == data[i..i + BLOCK] && data[i..][BLOCK..] == data[i + BLOCK..];
    assert done + (f(data[i..i + BLOCK]) + Ecb(f, data[i + BLOCK..]))
           == (done + f(data[i..i + BLOCK])) + Ecb(f, data[i + BLOCK..]);
  }

  /** The block loop, on whole blocks: the cipher panics on a last partial one. */
  method RunBlocks(f: Block8 -> Block8, data: bytes, result: array<byte>)
    requires WholeBlocks(data) && result.Length == |data|
    modifies result
    ensures result[..] == Ecb(f, data)
  {
    var i := 0;
    while i < |data|
      invariant 0 <= i <= |data| && WholeBlocks(data[i..])
      invariant Ecb(f, data) == result[..i] + Ecb(f, data[i..])
    {
      EcbStep(f, data, i, result[..i]);
      Store(result, i, f(data[i..i + BLOCK]));
      i := i + BLOCK;
    }
    assert result[..i] == result[..];
  }

  /** EncryptDesHex and DecryptDesHex: `encrypt` chooses the direction of the cipher. */
  function CryptHex(env: Env, textHex: string, keyB64: string, encrypt: bool): Result<string> {
    match Base64.Decode(Base64.Std, keyB64)
    case None => Error("illegal base64 data")
    case Some(key) =>
      match Hex.Decode(textHex)
      case None => Error("invalid hex text")
      case Some(text) =>
        match CipherFor(env, key)
        case None => Error("invalid key size")
        case Some(c) =>
          if !WholeBlocks(text) then Panic
          else Ok(Hex.Upper(Hex.Encode(Ecb(if encrypt then c.enc else c.dec, text))))
  }

  function EncryptHex(env: Env, textHex: string, keyB64: string): Result<string> {
    CryptHex(env, textHex, keyB64, true)
  }

  function DecryptHex(env: Env, textHex: string, keyB64: string): Result<string> {
    CryptHex(env, textHex, keyB64, false)
  }

  predicate KeyOk(keyB64: string) {
    var key := Base64.Decode(Base64.Std, keyB64);
    key.Some? && |key.value| in {8, 16, 24}
  }

  /**
    With a usable key, encryption succeeds on whole blocks of hex digits, and decrypting gives
    the same digits back in upper case.
   */
  lemma DecryptInvertsEncrypt(env: Env, textHex: string, keyB64: string)
    requires Lawful(env) && KeyOk(keyB64)
    requires Hex.Decode(textHex).Some? && WholeBlocks(Hex.Decode(textHex).value)
    ensures var e := EncryptHex(env, textHex, keyB64);
            && e.Ok?
            && DecryptHex(env, e.value, keyB64) == Ok(Hex.Upper(Hex.Encode(Hex.Decode(textHex).value)))
  {
    var text := Hex.Decode(textHex).value;
    var c := CipherFor(env, Base64.Decode(Base64.Std, keyB64).value).value;
    Hex.DecodeOfEncode(Ecb(c.enc, text));
    EcbInverts(c, text);
  }

  /** The cipher a key stands for: single DES, or triple with a 16-byte key's first half again at its end. */
  ghost predicate StandsFor(env: Env, key: bytes, c: Des) {
    || (|key| == 8 && c == env.single(key))
    || (|key| == 24 && c == env.triple(key))
    || (|key| == 16 && exists k :: |k| == 24 && k[..16] == key && k[16..] == key[..8] && c == env.triple(k))
  }

  lemma CipherOfKey(env: Env, key: bytes) returns (c: Des)
    requires |key| in {8, 16, 24}
    ensures CipherFor(env, key) == Some(c) && StandsFor(env, key, c)
  {
    c := CipherFor(env, key).value;
    if |key| == 16 {
      var k := key + key[..8];
      assert k[..16] == key && k[16..] == key[..8];
    }
  }

  lemma CryptWith(env: Env, textHex: string, keyB64: string, encrypt: bool, c: Des, text: bytes)
    requires KeyOk(keyB64) && CipherFor(env, Base64.Decode(Base64.Std, keyB64).value) == Some(c)
    requires Hex.Decode(textHex) == Some(text) && WholeBlocks(text)
    ensures CryptHex(env, textHex, keyB64, encrypt)
            == Ok(Hex.Upper(Hex.Encode(Ecb(if encrypt then c.enc else c.dec, text))))
  {
  }

  lemma OutputBlock(f: Block8 -> Block8, text: bytes, i: nat)
    requires WholeBlocks(text) && 8 * i + 8 <= |text|
    ensures var out := Hex.Decode(Hex.Upper(Hex.Encode(Ecb(f, text))));
            out.Some? && |out.value| == |text| && out.value[8 * i..8 * i + 8] == f(text[8 * i..8 * i + 8])
  {
    Hex.DecodeOfEncode(Ecb(f, text));
    EcbAt(f, text, i);
  }

  /** Main result: which cipher is run, and on what, block by block, in both directions. */
  lemma CryptsExactly(env: Env, textHex: string, keyB64: string, encrypt: bool, text: bytes, i: nat)
    returns (c: Des)
    requires KeyOk(keyB64) && Hex.Decode(textHex) == Some(text)
    requires |text| % 8 == 0 && 8 * i + 8 <= |text|
    ensures StandsFor(env, Base64.Decode(Base64.Std, keyB64).value, c)
    ensures var r := if encrypt then EncryptHex(env, textHex, keyB64) else DecryptHex(env, textHex, keyB64);
            && r.Ok?
            && var out := Hex.Decode(r.value);
               && out.Some? && |out.value| == |text|
               && out.value[8 * i..8 * i + 8]
                  == (if encrypt then c.enc(text[8 * i..8 * i + 8]) else c.dec(text[8 * i..8 * i + 8]))
  {
    c := CipherOfKey(env, Base64.Decode(Base64.Std, keyB64).value);
    CryptWith(env, textHex, keyB64, encrypt, c, text);
    OutputBlock(if encrypt then c.enc else c.dec, text, i);
  }
}
