/**
  The signed, optionally encrypted session cookie (v2/session/cookie_store.go). HMAC-SHA256,
  AES-GCM and JSON are parameters; the framing around them is modelled byte for byte.
 */
module CookieStore {
  import opened Wrappers
  import opened Bytes
  import opened Session
  import SessionMiddleware
  import Base64

  const TOKEN_VERSION := 1
  const TAG_SIZE := 32
  const NONCE_SIZE := 12
  const DAY := 24 * 60 * 60 * 1_000_000_000

  type Tag = b: bytes | |b| == TAG_SIZE witness seq(TAG_SIZE, _ => 0)
  type Nonce = b: bytes | |b| == NONCE_SIZE witness seq(NONCE_SIZE, _ => 0)

  datatype Payload = Payload(version: int, id: string, data: Data, createdAt: int, expiresAt: int)

  datatype Crypto = Crypto(
    mac: (bytes, bytes) -> Tag,
    seal: (bytes, Nonce, bytes) -> bytes,
    open: (bytes, Nonce, bytes) -> Option<bytes>,
    marshal: Payload -> Option<bytes>,
    unmarshal: bytes -> Option<Payload>)

  /** Opening undoes sealing; JSON gives back the payload with its flash map in JSON shape. */
  ghost predicate Lawful(c: Crypto) {
    && (forall k, n, p :: c.open(k, n, c.seal(k, n, p)) == Some(p))
    && (forall p :: c.marshal(p).Some? ==>
          c.unmarshal(c.marshal(p).value)
          == Some(p.(data := SessionMiddleware.Reload(SessionMiddleware.JsonCookie, p.data))))
  }

  datatype Config = Config(secret: bytes, rotated: seq<bytes>, encryption: Option<bytes>,
                           maxAge: int, maxPayload: int)

  function NewCookieStore(cfg: Config): (r: Result<Config>)
    ensures r.Ok? <==> |cfg.secret| >= 32 && (cfg.encryption.Some? ==> |cfg.encryption.value| == 32)
    ensures r.Ok? ==> r.value.secret == cfg.secret && r.value.rotated == cfg.rotated
    ensures r.Ok? ==> r.value.encryption == cfg.encryption
    ensures r.Ok? ==> r.value.maxAge == (if cfg.maxAge == 0 then DAY else cfg.maxAge)
    ensures r.Ok? ==> r.value.maxPayload == (if cfg.maxPayload == 0 then 3800 else cfg.maxPayload)
  {
    if |cfg.secret| < 32 then Error("session: secret key must be at least 32 bytes")
    else if cfg.encryption.Some? && |cfg.encryption.value| != 32
    then Error("session: encryption key must be exactly 32 bytes")
    else Ok(cfg.(maxAge := if cfg.maxAge == 0 then DAY else cfg.maxAge,
                 maxPayload := if cfg.maxPayload == 0 then 3800 else cfg.maxPayload))
  }

  /** The keys a store verifies with, its own first. */
  function Ring(cfg: Config): seq<bytes> {
    [cfg.secret] + cfg.rotated
  }

  predicate Signed(c: Crypto, cfg: Config, payload: bytes, tag: bytes) {
    exists k :: k in Ring(cfg) && c.mac(k, payload) == tag
  }

  method VerifySignature(c: Crypto, cfg: Config, payload: bytes, tag: bytes) returns (ok: bool)
    ensures ok == Signed(c, cfg, payload, tag)
    ensures ok <==> c.mac(cfg.secret, payload) == tag || exists k :: k in cfg.rotated && c.mac(k, payload) == tag
  {
    var keys := Ring(cfg);
    for i := 0 to |keys|
      invariant forall k :: k in keys[..i] ==> c.mac(k, payload) != tag
    {
      if c.mac(keys[i], payload) == tag {
        return true;
      }
    }
    assert keys[..|keys|] == keys;
    return false;
  }

  /** What gets signed: the payload, or the nonce followed by the sealed payload. */
  function Wrap(c: Crypto, cfg: Config, nonce: Nonce, payload: bytes): bytes {
    match cfg.encryption
    case None => payload
    case Some(key) => nonce + c.seal(key, nonce, payload)
  }

  function Unwrap(c: Crypto, cfg: Config, signed: bytes): Result<bytes> {
    match cfg.encryption
    case None => Ok(signed)
    case Some(key) =>
      if |signed| < NONCE_SIZE then Error("session: ciphertext too short")
      else match c.open(key, signed[..NONCE_SIZE], signed[NONCE_SIZE..])
           case Some(p) => Ok(p)
           case None => Error("session: decrypt")
  }

  function SignAndEncode(c: Crypto, cfg: Config, nonce: Nonce, payload: bytes): string {
    var signed := Wrap(c, cfg, nonce, payload);
    Base64.Encode(Base64.Url, signed + c.mac(cfg.secret, signed))
  }

  function VerifyAndDecode(c: Crypto, cfg: Config, token: string): Result<bytes> {
    match Base64.Decode(Base64.Url, token)
    case None => Error("session: base64 decode")
    case Some(combined) =>
      if |combined| < TAG_SIZE then Error("session: token too short")
      else
        var cut := |combined| - TAG_SIZE;
        if !Signed(c, cfg, combined[..cut], combined[cut..]) then Error("session: invalid signature")
        else Unwrap(c, cfg, combined[..cut])
  }

  /** The payload a Save marshals, and the one that comes back out of JSON. */
  function PayloadOf(s: Saved, expiresAt: int): Payload {
    Payload(TOKEN_VERSION, s.id, s.data, s.createdAt, expiresAt)
  }

  function Restored(s: Saved): Saved {
    s.(data := SessionMiddleware.Reload(SessionMiddleware.JsonCookie, s.data))
  }

  function Save(c: Crypto, cfg: Config, nonce: Nonce, s: Saved, now: int): Result<string> {
    match c.marshal(PayloadOf(s, now + cfg.maxAge))
    case None => Error("session: marshal payload")
    case Some(payload) =>
      var token := SignAndEncode(c, cfg, nonce, payload);
      if |token| > cfg.maxPayload then Error("session: encoded payload exceeds max") else Ok(token)
  }

  function Load(c: Crypto, cfg: Config, token: string, now: int): Result<Saved> {
    if token == "" then Error("session: empty token")
    else
      var payload :- VerifyAndDecode(c, cfg, token);
      match c.unmarshal(payload)
      case None => Error("session: unmarshal payload")
      case Some(raw) =>
        if raw.version != TOKEN_VERSION then Error("session: unsupported token version")
        else if now > raw.expiresAt then Error("session: token expired")
        else Ok(Saved(raw.id, raw.data, raw.createdAt))
  }

  lemma TokenNotEmpty(c: Crypto, cfg: Config, nonce: Nonce, payload: bytes)
    ensures SignAndEncode(c, cfg, nonce, payload) != ""
  {
    var signed := Wrap(c, cfg, nonce, payload);
    Base64.EncodeEmptyOnlyForEmpty(Base64.Url, signed + c.mac(cfg.secret, signed));
  }

  lemma CutAtTag(signed: bytes, tag: Tag)
    ensures var all := signed + tag;
            && |all| - TAG_SIZE == |signed| && all[..|signed|] == signed && all[|signed|..] == tag
  {
  }

  lemma VerifyOfTagged(c: Crypto, reader: Config, token: string, signed: bytes, tag: Tag)
    requires Base64.Decode(Base64.Url, token) == Some(signed + tag)
    ensures VerifyAndDecode(c, reader, token)
            == if Signed(c, reader, signed, tag) then Unwrap(c, reader, signed)
               else Error("session: invalid signature")
  {
    CutAtTag(signed, tag);
  }

  lemma UnwrapInvertsWrap(c: Crypto, cfg: Config, reader: Config, nonce: Nonce, payload: bytes)
    requires Lawful(c) && reader.encryption == cfg.encryption
    ensures Unwrap(c, reader, Wrap(c, cfg, nonce, payload)) == Ok(payload)
  {
    if cfg.encryption.Some? {
      var signed := Wrap(c, cfg, nonce, payload);
      assert signed[..NONCE_SIZE] == nonce;
      assert signed[NONCE_SIZE..] == c.seal(cfg.encryption.value, nonce, payload);
    }
  }

  /** The split 32 bytes before the end inverts the concatenation, and unwrapping the wrapping. */
  lemma DecodeInvertsSign(c: Crypto, cfg: Config, reader: Config, nonce: Nonce, payload: bytes)
    requires Lawful(c) && reader.encryption == cfg.encryption
    ensures var signed := Wrap(c, cfg, nonce, payload);
            VerifyAndDecode(c, reader, SignAndEncode(c, cfg, nonce, payload))
            == if Signed(c, reader, signed, c.mac(cfg.secret, signed)) then Ok(payload)
               else Error("session: invalid signature")
  {
    var signed := Wrap(c, cfg, nonce, payload);
    var tag := c.mac(cfg.secret, signed);
    Base64.DecodeOfEncode(Base64.Url, signed + tag);
    VerifyOfTagged(c, reader, SignAndEncode(c, cfg, nonce, payload), signed, tag);
    UnwrapInvertsWrap(c, cfg, reader, nonce, payload);
  }

  lemma LoadOfPayload(c: Crypto, reader: Config, token: string, s: Saved, expiresAt: int, now: int)
    requires Lawful(c) && c.marshal(PayloadOf(s, expiresAt)).Some? && token != ""
    requires VerifyAndDecode(c, reader, token) == Ok(c.marshal(PayloadOf(s, expiresAt)).value)
    ensures Load(c, reader, token, now)
            == if now <= expiresAt then Ok(Restored(s)) else Error("session: token expired")
  {
  }

  lemma LoadOfSigned(c: Crypto, cfg: Config, reader: Config, nonce: Nonce,
                     s: Saved, expiresAt: int, payload: bytes, token: string, now: int)
    requires Lawful(c) && reader.encryption == cfg.encryption
    requires c.marshal(PayloadOf(s, expiresAt)) == Some(payload)
    requires token == SignAndEncode(c, cfg, nonce, payload)
    ensures var signed := Wrap(c, cfg, nonce, payload);
            Load(c, reader, token, now)
            == if !Signed(c, reader, signed, c.mac(cfg.secret, signed)) then Error("session: invalid signature")
               else if now > expiresAt then Error("session: token expired")
               else Ok(Restored(s))
  {
    DecodeInvertsSign(c, cfg, reader, nonce, payload);
    TokenNotEmpty(c, cfg, nonce, payload);
    if VerifyAndDecode(c, reader, token).Ok? {
      LoadOfPayload(c, reader, token, s, expiresAt, now);
    }
  }

  /** What a token's tag covers: the payload as it is, or the nonce and the sealed payload. */
  ghost predicate Carries(c: Crypto, cfg: Config, nonce: Nonce, body: bytes, payload: bytes) {
    if cfg.encryption.None? then body == payload
    else body == nonce + c.seal(cfg.encryption.value, nonce, payload)
  }

  /** A tag is made by the store's own secret or by one of its other keys. */
  ghost predicate Accepts(c: Crypto, cfg: Config, body: bytes, tag: bytes) {
    tag == c.mac(cfg.secret, body) || exists k :: k in cfg.rotated && tag == c.mac(k, body)
  }

  lemma AcceptsIsSigned(c: Crypto, cfg: Config, body: bytes, tag: bytes)
    ensures Accepts(c, cfg, body, tag) <==> Signed(c, cfg, body, tag)
  {
    assert cfg.secret in Ring(cfg);
    assert forall k :: k in Ring(cfg) <==> k == cfg.secret || k in cfg.rotated;
  }

  /**
    Main result, byte for byte: what a saved token decodes to, and that a save succeeds exactly if
    its payload marshals and the encoded length, four characters for every three bytes begun, fits.
   */
  lemma SavedTokenExactly(c: Crypto, cfg: Config, nonce: Nonce, s: Saved, savedAt: int, body: bytes)
    requires var p := c.marshal(Payload(1, s.id, s.data, s.createdAt, savedAt + cfg.maxAge));
             p.Some? ==> Carries(c, cfg, nonce, body, p.value)
    ensures var r := Save(c, cfg, nonce, s, savedAt);
            && (r.Ok? <==> c.marshal(Payload(1, s.id, s.data, s.createdAt, savedAt + cfg.maxAge)).Some?
                           && (|body| + 32 + 2) / 3 * 4 <= cfg.maxPayload)
            && (r.Ok? ==> Base64.Decode(Base64.Url, r.value) == Some(body + c.mac(cfg.secret, body)))
  {
    Base64.DecodeOfEncode(Base64.Url, body + c.mac(cfg.secret, body));
    Base64.EncodedLength(Base64.Url, body + c.mac(cfg.secret, body));
  }

  /**
    Main result. Loading a saved token, in any store with the same encryption key, restores
    id, creation time and data if and only if the token has not expired and that store's secret
    or one of its other keys gives the tag.
   */
  lemma LoadRestoresSaved(c: Crypto, cfg: Config, reader: Config, nonce: Nonce,
                          s: Saved, savedAt: int, token: string, loadedAt: int, body: bytes)
    requires Lawful(c) && reader.encryption == cfg.encryption
    requires Save(c, cfg, nonce, s, savedAt) == Ok(token)
    requires var p := c.marshal(Payload(1, s.id, s.data, s.createdAt, savedAt + cfg.maxAge));
             p.Some? ==> Carries(c, cfg, nonce, body, p.value)
    ensures Load(c, reader, token, loadedAt)
            == if !Accepts(c, reader, body, c.mac(cfg.secret, body)) then Error("session: invalid signature")
               else if loadedAt > savedAt + cfg.maxAge then Error("session: token expired")
               else Ok(Restored(s))
  {
    AcceptsIsSigned(c, reader, body, c.mac(cfg.secret, body));
    LoadOfSigned(c, cfg, reader, nonce, s, savedAt + cfg.maxAge,
                 c.marshal(PayloadOf(s, savedAt + cfg.maxAge)).value, token, loadedAt);
  }

  /** Key rotation: a store that still lists the old secret, wherever among its keys, loads old tokens. */
  lemma RotatedKeyStillLoads(c: Crypto, cfg: Config, reader: Config, nonce: Nonce,
                             s: Saved, savedAt: int, token: string, loadedAt: int)
    requires Lawful(c) && reader.encryption == cfg.encryption
    requires Save(c, cfg, nonce, s, savedAt) == Ok(token)
    requires cfg.secret == reader.secret || cfg.secret in reader.rotated
    requires loadedAt <= savedAt + cfg.maxAge
    ensures Load(c, reader, token, loadedAt) == Ok(Restored(s))
  {
    var body := Wrap(c, cfg, nonce, c.marshal(PayloadOf(s, savedAt + cfg.maxAge)).value);
    LoadRestoresSaved(c, cfg, reader, nonce, s, savedAt, token, loadedAt, body);
  }

  /** A token's bytes and what is in them: what a load needs to give back `s`. */
  ghost predicate Loadable(c: Crypto, cfg: Config, token: string, now: int, s: Saved,
                           body: bytes, tag: Tag, payload: bytes, raw: Payload)
  {
    && token != "" && Base64.Decode(Base64.Url, token) == Some(body + tag)
    && Accepts(c, cfg, body, tag)
    && (if cfg.encryption.None? then payload == body
        else |body| >= 12 && c.open(cfg.encryption.value, body[..12], body[12..]) == Some(payload))
    && c.unmarshal(payload) == Some(raw)
    && raw.version == 1 && now <= raw.expiresAt
    && s == Saved(raw.id, raw.data, raw.createdAt)
  }

  lemma LoadableLoads(c: Crypto, cfg: Config, token: string, now: int, s: Saved,
                      body: bytes, tag: Tag, payload: bytes, raw: Payload)
    requires Loadable(c, cfg, token, now, s, body, tag, payload, raw)
    ensures Load(c, cfg, token, now) == Ok(s)
  {
    AcceptsIsSigned(c, cfg, body, tag);
    VerifyOfTagged(c, cfg, token, body, tag);
  }

  lemma LoadedWasLoadable(c: Crypto, cfg: Config, token: string, now: int)
    returns (body: bytes, tag: Tag, payload: bytes, raw: Payload)
    requires Load(c, cfg, token, now).Ok?
    ensures Loadable(c, cfg, token, now, Load(c, cfg, token, now).value, body, tag, payload, raw)
  {
    var combined := Base64.Decode(Base64.Url, token).value;
    var cut := |combined| - TAG_SIZE;
    body, tag := combined[..cut], combined[cut..];
    assert body + tag == combined;
    AcceptsIsSigned(c, cfg, body, tag);
    payload := Unwrap(c, cfg, body).value;
    raw := c.unmarshal(payload).value;
  }

  /** Main result. Whatever the token, exactly what it must hold to load, and as what. */
  lemma LoadsExactly(c: Crypto, cfg: Config, token: string, now: int, s: Saved)
    ensures Load(c, cfg, token, now) == Ok(s) <==>
            exists body: bytes, tag: Tag, payload: bytes, raw: Payload ::
              Loadable(c, cfg, token, now, s, body, tag, payload, raw)
  {
    if Load(c, cfg, token, now) == Ok(s) {
      var body, tag, payload, raw := LoadedWasLoadable(c, cfg, token, now);
    }
    if body: bytes, tag: Tag, payload: bytes, raw: Payload :|
       Loadable(c, cfg, token, now, s, body, tag, payload, raw) {
      LoadableLoads(c, cfg, token, now, s, body, tag, payload, raw);
    }
  }
}
