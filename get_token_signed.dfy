/** services/getTokenSigned.ts: obtaining an anonymous voting token from the election
    server by RSA blind signature (RSABSSA-SHA384-PSS-Randomized of RFC 9474).

    The secure store, SHA-256, the server requests, the public-key import and the
    suite's prepare, blind, finalize and verify steps (section 4 of RFC 9474) are
    fields of a `TokenEnv`. A randomised step is a fixed function here: one value of
    the environment is one draw of the randomness. */
module GetTokenSigned {
  import opened Text
  import opened Wrappers
  import Base64
  import BlindRsa
  import CryptoUtils

  /** What `suite.blind` resolves to. */
  datatype BlindOutput = BlindOutput(blindedMsg: seq<byte>, inv: seq<byte>)

  /** What local verification does: it answers, or it throws. */
  datatype VerifyOutcome = Verified(ok: bool) | VerifyThrew

  /** The JSON body of `POST /request-token`. */
  datatype TokenRequest = TokenRequest(nic: string, blindedToken: string, signature: string)

  /** The one field of the answer that is read; `None` when it or `data` is absent. */
  datatype TokenResponse = TokenResponse(blindSignature: Option<string>)

  datatype TokenEnv = TokenEnv(
    isWeb: bool,
    secureStore: map<string, string>,
    sha256: seq<byte> -> seq<byte>,
    esPublicKey: Result<string, TransportError>,
    importPublicKey: string -> Option<CryptoKey>,
    prepare: seq<byte> -> seq<byte>,
    blind: (CryptoKey, seq<byte>) -> BlindOutput,
    signer: CryptoUtils.Signer,
    post: TokenRequest -> Result<TokenResponse, TransportError>,
    finalize: (CryptoKey, seq<byte>, seq<byte>, seq<byte>) -> Option<seq<byte>>,
    verify: (CryptoKey, seq<byte>, seq<byte>) -> VerifyOutcome)

  datatype TokenError =
    | WebUnsupported                            // "not implemented for web platform"
    | CredentialsMissing                        // "User NIC or private key not found"
    | KeyImportFailed                           // pemToCryptoKey rejected the server key
    | Signing(cause: CryptoUtils.SignError)     // signWithStoredPrivateKey threw
    | Transport(failure: TransportError)        // a request failed
    | NoBlindSignature                          // "No blind signature returned from server"
    | FinalizeFailed                            // suite.finalize threw

  /** What `getTokenSigned` resolves to. */
  datatype TokenResult = TokenResult(signature: string, preparedMessage: string, rawHashHex: string)

  // ----- the stored credentials -----

  /** `getItemAsync(key)`: the stored text, `null` when there is none. */
  function Lookup(store: map<string, string>, key: string): Option<string>
  {
    if key in store then Some(store[key]) else None
  }

  /** JavaScript truthiness of an optional string. */
  predicate Present(v: Option<string>)
  {
    v.Some? && v.value != ""
  }

  function StoredNic(env: TokenEnv): (r: Option<string>)
    ensures r.Some? <==> "userNIC" in env.secureStore
    ensures r.Some? ==> r.value == env.secureStore["userNIC"]
  {
    Lookup(env.secureStore, "userNIC")
  }

  /** The key is read under `privateKey_${nic}` before `nic` is checked, so a missing
      NIC reads `privateKey_null`. */
  function StoredKey(env: TokenEnv): (r: Option<string>)
    ensures var name := "privateKey_" + (if "userNIC" in env.secureStore then env.secureStore["userNIC"] else "null");
      && (r.Some? <==> name in env.secureStore)
      && (r.Some? ==> r.value == env.secureStore[name])
  {
    Lookup(env.secureStore, "privateKey_" + (if StoredNic(env).Some? then StoredNic(env).value else "null"))
  }

  predicate HasCredentials(env: TokenEnv)
  {
    Present(StoredNic(env)) && Present(StoredKey(env))
  }

  // ----- the message and the provenance payload -----

  /** The hex digest that `digestStringAsync(SHA256, nic + privateKey)` returns. */
  function HashHex(env: TokenEnv, nic: string, secret: string): (h: string)
    ensures |h| == 2 * |env.sha256(Utf8(nic + secret))|
  {
    BlindRsa.LowerHex(env.sha256(Utf8(nic + secret)))
  }

  /** `hexToUint8Array(hashHex)`: the digest itself. */
  function Message(env: TokenEnv, nic: string, secret: string): (m: seq<byte>)
    ensures m == env.sha256(Utf8(nic + secret))
  {
    BlindRsa.HexRoundTrip(env.sha256(Utf8(nic + secret)));
    BlindRsa.HexBytes(HashHex(env, nic, secret))
  }

  /** `concatUint8([blindedMsg, new TextEncoder().encode(nic)])`. */
  function ProvenancePayload(blinded: seq<byte>, nic: string): (p: seq<byte>)
    ensures p == blinded + Utf8(nic)
  {
    CryptoUtils.FlattenPair(blinded, Utf8(nic));
    CryptoUtils.Flatten([blinded, Utf8(nic)])
  }

  /** The provenance payload splits back into the blinded message and the NIC: the
      blinded message is its first part, and the NIC is the UTF-8 text behind it. */
  lemma ProvenanceSplits(b1: seq<byte>, nic1: string, b2: seq<byte>, nic2: string)
    requires |b1| == |b2| && ProvenancePayload(b1, nic1) == ProvenancePayload(b2, nic2)
    ensures b1 == b2 && nic1 == nic2
  {
    var p := ProvenancePayload(b1, nic1);
    assert b1 == p[..|b1|] && b2 == p[..|b2|];
    assert Utf8(nic1) == p[|b1|..] && Utf8(nic2) == p[|b2|..];
    Utf8Injective(nic1, nic2);
  }

  // ----- the exchange with the server -----

  /** Token material that the model decodes: the stored key takes one of the shapes
      `signWithStoredPrivateKey` knows, and the server's blind signature, whenever it
      sends one for this exchange, is base 64. */
  predicate ExchangeDecodable(env: TokenEnv, nic: string, secret: string, pk: CryptoKey)
  {
    && CryptoUtils.SecretDecodable(secret)
    && var prepared := env.prepare(Message(env, nic, secret));
       var blinded := env.blind(pk, prepared);
       var sig := CryptoUtils.SignWithStoredPrivateKey(env.signer, secret, ProvenancePayload(blinded.blindedMsg, nic));
       sig.Ok? ==>
         var resp := env.post(TokenRequest(nic, Base64.Encode(blinded.blindedMsg), Base64.Encode(sig.value)));
         resp.Ok? && resp.value.blindSignature.Some? ==> Base64.WellFormed(resp.value.blindSignature.value)
  }

  /** services/getTokenSigned.ts:63-110, once the server key is imported: blind the
      prepared digest, sign the blinded message and the NIC with the stored key, send
      both, finalize the blind signature that comes back. Local verification runs and
      its outcome, an exception included, only goes to the log. */
  function Exchange(env: TokenEnv, nic: string, secret: string, pk: CryptoKey): (r: Result<TokenResult, TokenError>)
    requires ExchangeDecodable(env, nic, secret, pk)
    ensures var prepared := env.prepare(env.sha256(Utf8(nic + secret)));
      var blinded := env.blind(pk, prepared).blindedMsg;
      var sig := CryptoUtils.SignWithStoredPrivateKey(env.signer, secret, blinded + Utf8(nic));
      && (sig.Err? ==> r == Err(Signing(sig.error)))
      && (sig.Ok? ==>
            var resp := env.post(TokenRequest(nic, Base64.Encode(blinded), Base64.Encode(sig.value)));
            && (resp.Err? ==> r == Err(Transport(resp.error)))
            && (resp.Ok? && !Present(resp.value.blindSignature) ==> r == Err(NoBlindSignature))
            && (resp.Ok? && Present(resp.value.blindSignature) ==>
                  var fin := env.finalize(pk, prepared, Base64.Decode(resp.value.blindSignature.value),
                                          env.blind(pk, prepared).inv);
                  && (fin.None? ==> r == Err(FinalizeFailed))
                  && (fin.Some? ==> r == Ok(TokenResult(Base64.Encode(fin.value), Base64.Encode(prepared),
                                                        BlindRsa.LowerHex(env.sha256(Utf8(nic + secret)))))))
            && (r.Ok? ==>
                  && resp.Ok? && Present(resp.value.blindSignature)
                  && var fin := env.finalize(pk, prepared, Base64.Decode(resp.value.blindSignature.value),
                                             env.blind(pk, prepared).inv);
                  && fin.Some?
                  && r.value == TokenResult(Base64.Encode(fin.value), Base64.Encode(prepared),
                                            BlindRsa.LowerHex(env.sha256(Utf8(nic + secret))))))
  {
    var hashHex := HashHex(env, nic, secret);
    var message := Message(env, nic, secret);
    var prepared := env.prepare(message);
    var blinded := env.blind(pk, prepared);
    var payload := ProvenancePayload(blinded.blindedMsg, nic);
    match CryptoUtils.SignWithStoredPrivateKey(env.signer, secret, payload)
    case Err(e) => Err(Signing(e))
    case Ok(provenanceSig) =>
      var body := TokenRequest(nic, Base64.Encode(blinded.blindedMsg), Base64.Encode(provenanceSig));
      match env.post(body)
      case Err(e) => Err(Transport(e))
      case Ok(resp) =>
        if !Present(resp.blindSignature) then Err(NoBlindSignature)
        else
          var blindSignature := Base64.Decode(resp.blindSignature.value);
          match env.finalize(pk, prepared, blindSignature, blinded.inv)
          case None => Err(FinalizeFailed)
          case Some(signature) =>
            Ok(TokenResult(Base64.Encode(signature), Base64.Encode(prepared), hashHex))
  }

  /** Every decodability condition of one call. */
  predicate TokenDecodable(env: TokenEnv)
  {
    !env.isWeb && HasCredentials(env) && env.esPublicKey.Ok? && env.importPublicKey(env.esPublicKey.value).Some?
    ==> ExchangeDecodable(env, StoredNic(env).value, StoredKey(env).value, env.importPublicKey(env.esPublicKey.value).value)
  }

  /** services/getTokenSigned.ts:35-111. */
  function GetTokenSigned(env: TokenEnv): (r: Result<TokenResult, TokenError>)
    requires TokenDecodable(env)
    ensures env.isWeb ==> r == Err(WebUnsupported)
    ensures !env.isWeb && !HasCredentials(env) ==> r == Err(CredentialsMissing)
    ensures !env.isWeb && HasCredentials(env) && env.esPublicKey.Err? ==> r == Err(Transport(env.esPublicKey.error))
    ensures !env.isWeb && HasCredentials(env) && env.esPublicKey.Ok? && env.importPublicKey(env.esPublicKey.value).None?
            ==> r == Err(KeyImportFailed)
    ensures !env.isWeb && HasCredentials(env) && env.esPublicKey.Ok? && env.importPublicKey(env.esPublicKey.value).Some?
            ==> r == Exchange(env, StoredNic(env).value, StoredKey(env).value, env.importPublicKey(env.esPublicKey.value).value)
    ensures r.Ok? ==>
      && !env.isWeb && HasCredentials(env)
      && r.value.rawHashHex == BlindRsa.LowerHex(env.sha256(Utf8(StoredNic(env).value + StoredKey(env).value)))
  {
    if env.isWeb then Err(WebUnsupported)
    else
      var nic := StoredNic(env);
      var secret := StoredKey(env);
      if !Present(nic) || !Present(secret) then Err(CredentialsMissing)
      else
        match env.esPublicKey
        case Err(e) => Err(Transport(e))
        case Ok(esPem) =>
          match env.importPublicKey(esPem)
          case None => Err(KeyImportFailed)
          case Some(pk) => Exchange(env, nic.value, secret.value, pk)
  }

  // ----- properties of the flow -----

  /** On the web the call fails whatever the store holds. */
  lemma WebFailsWhateverStored(env: TokenEnv, store: map<string, string>)
    requires env.isWeb
    ensures TokenDecodable(env.(secureStore := store))
    ensures GetTokenSigned(env.(secureStore := store)) == Err(WebUnsupported)
  {
  }

  /** The outcome of local verification, whatever it is, does not change the result. */
  lemma VerifyOutcomeIgnored(env: TokenEnv, v: (CryptoKey, seq<byte>, seq<byte>) -> VerifyOutcome)
    requires TokenDecodable(env)
    ensures TokenDecodable(env.(verify := v))
    ensures GetTokenSigned(env.(verify := v)) == GetTokenSigned(env)
  {
    var env2 := env.(verify := v);
    if !env.isWeb && HasCredentials(env) && env.esPublicKey.Ok? && env.importPublicKey(env.esPublicKey.value).Some? {
      var nic, secret, pk := StoredNic(env).value, StoredKey(env).value, env.importPublicKey(env.esPublicKey.value).value;
      assert Message(env2, nic, secret) == Message(env, nic, secret);
      assert ExchangeDecodable(env2, nic, secret, pk);
      assert Exchange(env2, nic, secret, pk) == Exchange(env, nic, secret, pk);
    }
  }

  /** A result decodes back to the finalized signature, the prepared message that was
      blinded and finalized, and (from hex) the message digest. */
  lemma ResultDecodes(env: TokenEnv)
    requires TokenDecodable(env) && GetTokenSigned(env).Ok?
    ensures var r := GetTokenSigned(env).value;
      var nic, secret := StoredNic(env).value, StoredKey(env).value;
      var pk := env.importPublicKey(env.esPublicKey.value).value;
      var prepared := env.prepare(env.sha256(Utf8(nic + secret)));
      && Base64.WellFormed(r.preparedMessage) && Base64.Decode(r.preparedMessage) == prepared
      && Base64.WellFormed(r.signature)
      && Some(Base64.Decode(r.signature)) == env.finalize(pk, prepared, Base64.Decode(env.post(
           TokenRequest(nic, Base64.Encode(env.blind(pk, prepared).blindedMsg),
             Base64.Encode(CryptoUtils.SignWithStoredPrivateKey(env.signer, secret,
               env.blind(pk, prepared).blindedMsg + Utf8(nic)).value))).value.blindSignature.value),
           env.blind(pk, prepared).inv)
      && BlindRsa.IsHexInput(r.rawHashHex) && BlindRsa.HexBytes(r.rawHashHex) == env.sha256(Utf8(nic + secret))
  {
    var r := GetTokenSigned(env).value;
    var nic, secret := StoredNic(env).value, StoredKey(env).value;
    var pk := env.importPublicKey(env.esPublicKey.value).value;
    var prepared := env.prepare(env.sha256(Utf8(nic + secret)));
    var fin := env.finalize(pk, prepared, Base64.Decode(env.post(
           TokenRequest(nic, Base64.Encode(env.blind(pk, prepared).blindedMsg),
             Base64.Encode(CryptoUtils.SignWithStoredPrivateKey(env.signer, secret,
               env.blind(pk, prepared).blindedMsg + Utf8(nic)).value))).value.blindSignature.value),
           env.blind(pk, prepared).inv);
    assert r == TokenResult(Base64.Encode(fin.value), Base64.Encode(prepared),
                            BlindRsa.LowerHex(env.sha256(Utf8(nic + secret))));
    Base64.DecodeEncode(prepared);
    Base64.DecodeEncode(fin.value);
    BlindRsa.HexRoundTrip(env.sha256(Utf8(nic + secret)));
  }
}
