/** Encrypted configuration parameters (libParams/security.go). */
module SecureParams {
  import opened Wrappers
  import opened Bytes
  import Base64
  import Aes

  datatype SecurityParam = SecurityParam(isPlain: bool, value: GoString)

  function FillCipher(env: Aes.Env, key: string, iv: string, field: SecurityParam): Result<SecurityParam> {
    if field.isPlain then
      var cipher :- Aes.Encrypt(env, key, iv, field.value);
      Ok(SecurityParam(false, cipher))
    else Ok(field)
  }

  function Decrypt(env: Aes.Env, key: string, iv: string, name: string, field: SecurityParam)
    : Result<SecurityParam>
  {
    if field.isPlain then Error("security field " + name + " is plain")
    else if |field.value| == 0 then Ok(field)
    else
      var plainB64 :- Aes.Decrypt(env, key, iv, field.value);
      match Base64.Decode(Base64.Std, plainB64)
      case None => Error("illegal base64 data")
      case Some(bts) => Ok(SecurityParam(false, FromBytes(bts)))
  }

  /**
    Main result. For every value, the empty one included, encrypting a plain parameter either
    fails for want of a usable key or IV, or gives an encrypted one that decrypts to exactly the
    original value under any name; and encrypting it again changes nothing.
   */
  lemma DecryptInvertsFillCipher(env: Aes.Env, key: string, iv: string, name: string, value: GoString)
    requires forall k :: Invertible(env.cipher(k))
    ensures var filled := FillCipher(env, key, iv, SecurityParam(true, value));
            && (filled.Ok? <==> |Aes.Lenient(env, key)| in {16, 24, 32} && |Aes.Lenient(env, iv)| == 16)
            && (filled.Ok? ==> Aes.Encrypt(env, key, iv, value) == Ok(filled.value.value))
            && (filled.Ok? ==>
                  && !filled.value.isPlain
                  && Decrypt(env, key, iv, name, filled.value) == Ok(SecurityParam(false, value))
                  && FillCipher(env, key, iv, filled.value) == filled)
  {
    Aes.DecryptInvertsEncrypt(env, key, iv, value);
    Base64.DecodeOfEncode(Base64.Std, ToBytes(value));
    FromToBytes(value);
  }

  /** A plain parameter is refused, and an empty one is given back as it is, without any key. */
  lemma DecryptEdges(env: Aes.Env, key: string, iv: string, name: string, value: GoString)
    ensures Decrypt(env, key, iv, name, SecurityParam(true, value)).Error?
    ensures Decrypt(env, key, iv, name, SecurityParam(false, "")) == Ok(SecurityParam(false, ""))
  {
  }
}
