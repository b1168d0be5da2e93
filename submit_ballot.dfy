/** services/submitBallot.ts: the one-hot ballot, the body posted to the ballot box
    and the rule by which the ballot box's receipt is accepted.

    Encryption, the key wrapping for the tallying server, SHA-256, WebCrypto's SPKI
    import and RSA-PSS verification, and the three HTTP requests are fields of a
    `BallotEnv`; the model fixes what the function does with their results. */
module SubmitBallot {
  import opened Text
  import opened Wrappers
  import Base64
  import BlindRsa
  import CryptoUtils

  /** The argument: the chosen candidate and the anonymous token from `getTokenSigned`
      (the finalized signature and the prepared message, both base 64). */
  datatype BallotSubmissionPayload = BallotSubmissionPayload(
    candidateId: string,
    signature: string,
    preparedMessage: string)

  /** `{ [candidateId]: 1 }`: one entry, the chosen candidate, with the value 1. */
  function BallotContent(candidateId: string): (content: map<string, int>)
    ensures candidateId in content && content[candidateId] == 1
    ensures forall k | k in content :: k == candidateId
  {
    map[candidateId := 1]
  }

  /** What `encryptBallot` resolves to. The ciphertext is taken as the text that
      `String(ciphertext)` yields. */
  datatype EncryptedBallot = EncryptedBallot(ciphertext: string, iv: string, aesKey: seq<byte>)

  /** The JSON body of `POST /submit-ballot`. */
  datatype SubmitBody = SubmitBody(
    encryptedBallot: string,
    iv: string,
    encryptedKey: string,
    tokenSignature: string,   // sent as `token_signature`
    token: string)

  /** The fields of the ballot box's answer that the function reads; `None` is a field
      that is absent or `null`. */
  datatype SubmitResponse = SubmitResponse(
    ballotId: Option<string>,
    signature: Option<string>,
    success: Option<bool>,
    message: Option<string>)

  /** Everything `submitBallot` calls: `encryptBallot`, `GET /public-key` on the
      tallying server, `encryptKeyWithPublicKey`, `POST /submit-ballot`,
      `GET /public-key` on the ballot box, SHA-256, `importKey("spki", …)` and
      `verify({name: "RSA-PSS", saltLength}, key, signature, digest)`. */
  datatype BallotEnv = BallotEnv(
    encryptBallot: map<string, int> -> EncryptedBallot,
    tallyPublicKey: Result<string, TransportError>,
    encryptKey: (seq<byte>, string) -> string,
    post: SubmitBody -> Result<SubmitResponse, TransportError>,
    ballotBoxPublicKey: Result<string, TransportError>,
    sha256: seq<byte> -> seq<byte>,
    importSpki: seq<byte> -> Option<CryptoKey>,
    verifyPss: (CryptoKey, int, seq<byte>, seq<byte>) -> bool)

  datatype SubmitError =
    | Transport(cause: TransportError)  // a request failed; axios rejects
    | MissingReceiptField               // "Missing ballotId or signature in response"
    | KeyImportFailed                   // importKey rejected the ballot box key
    | VerificationFailed                // "Response signature verification failed"

  /** What `submitBallot` resolves to. */
  datatype Receipt = Receipt(success: bool, message: string, ballotId: string, ciphertext: string, hash: string)

  /** The receipt is checked with RSA-PSS and a 64-byte salt (signing in
      utils/crypto-utils.ts uses 48; the two are kept as written). */
  const ReceiptSaltLength := 64

  const DefaultMessage := "Ballot submitted successfully"

  /** The sealed ballot: `encryptBallot` of the one-hot content. */
  function Seal(env: BallotEnv, candidateId: string): EncryptedBallot
  {
    env.encryptBallot(BallotContent(candidateId))
  }

  /** The body posted to the ballot box, given the tallying server's key: the
      ciphertext and IV of the sealed ballot, its AES key wrapped for the tallying
      server, and the token's two parts unchanged. */
  function PostedBody(env: BallotEnv, payload: BallotSubmissionPayload, tallyPem: string): (b: SubmitBody)
    ensures b.encryptedBallot == Seal(env, payload.candidateId).ciphertext
    ensures b.iv == Seal(env, payload.candidateId).iv
    ensures b.encryptedKey == env.encryptKey(Seal(env, payload.candidateId).aesKey, tallyPem)
    ensures b.tokenSignature == payload.signature && b.token == payload.preparedMessage
  {
    var sealed := Seal(env, payload.candidateId);
    SubmitBody(sealed.ciphertext, sealed.iv, env.encryptKey(sealed.aesKey, tallyPem),
               payload.signature, payload.preparedMessage)
  }

  /** JavaScript truthiness of an optional string: present and not empty. */
  predicate Present(v: Option<string>)
  {
    v.Some? && v.value != ""
  }

  /** `a ?? d`. */
  function OrElse<T>(a: Option<T>, d: T): T
  {
    if a.Some? then a.value else d
  }

  /** The bytes that are hashed: UTF-8 of the ballot id followed by UTF-8 of the
      ciphertext, with nothing between them. */
  function ReceiptMessage(ballotId: string, ciphertext: string): seq<byte>
  {
    Utf8(ballotId) + Utf8(ciphertext)
  }

  function ReceiptDigest(env: BallotEnv, ballotId: string, ciphertext: string): seq<byte>
  {
    env.sha256(ReceiptMessage(ballotId, ciphertext))
  }

  /** Server data the model decodes: the ballot box key is PEM with a base 64 body and
      the receipt signature, when there is one, is base 64. */
  predicate ResponseDecodable(env: BallotEnv, resp: SubmitResponse)
  {
    && (env.ballotBoxPublicKey.Ok? ==> CryptoUtils.PemDecodable(env.ballotBoxPublicKey.value))
    && (resp.signature.Some? ==> Base64.WellFormed(resp.signature.value))
  }

  /** The key the receipt is checked with. */
  function VerifyKey(env: BallotEnv): Option<CryptoKey>
    requires env.ballotBoxPublicKey.Ok? && CryptoUtils.PemDecodable(env.ballotBoxPublicKey.value)
  {
    env.importSpki(CryptoUtils.PemToDer(env.ballotBoxPublicKey.value))
  }

  function SignatureBytes(resp: SubmitResponse): seq<byte>
    requires resp.signature.Some? && Base64.WellFormed(resp.signature.value)
  {
    Base64.Decode(resp.signature.value)
  }

  /** The acceptance rule: the ballot box key was fetched and imports, the response has
      a ballot id and a signature, and the signature verifies under that key over
      SHA-256(utf8(ballotId) ‖ utf8(ciphertext)). */
  predicate ReceiptVerifies(env: BallotEnv, ciphertext: string, resp: SubmitResponse)
    requires ResponseDecodable(env, resp)
  {
    && env.ballotBoxPublicKey.Ok?
    && Present(resp.ballotId) && Present(resp.signature)
    && VerifyKey(env).Some?
    && env.verifyPss(VerifyKey(env).value, ReceiptSaltLength, SignatureBytes(resp),
                     ReceiptDigest(env, resp.ballotId.value, ciphertext))
  }

  /** services/submitBallot.ts:55-100, from the answer of the ballot box on. */
  function AcceptReceipt(env: BallotEnv, ciphertext: string, resp: SubmitResponse): (r: Result<Receipt, SubmitError>)
    requires ResponseDecodable(env, resp)
    ensures r.Ok? <==> ReceiptVerifies(env, ciphertext, resp)
    ensures env.ballotBoxPublicKey.Err? ==> r == Err(Transport(env.ballotBoxPublicKey.error))
    ensures env.ballotBoxPublicKey.Ok? && !(Present(resp.ballotId) && Present(resp.signature))
            ==> r == Err(MissingReceiptField)
    ensures env.ballotBoxPublicKey.Ok? && Present(resp.ballotId) && Present(resp.signature)
            ==> (r == Err(KeyImportFailed) <==> VerifyKey(env).None?)
    ensures env.ballotBoxPublicKey.Ok? && Present(resp.ballotId) && Present(resp.signature)
            && VerifyKey(env).Some? && !ReceiptVerifies(env, ciphertext, resp)
            ==> r == Err(VerificationFailed)
    ensures r.Ok? ==>
      && r.value.ballotId == resp.ballotId.value
      && r.value.ciphertext == ciphertext
      && r.value.hash == BlindRsa.LowerHex(ReceiptDigest(env, resp.ballotId.value, ciphertext))
      && r.value.success == (if resp.success.Some? then resp.success.value else true)
      && r.value.message == (if resp.message.Some? then resp.message.value else DefaultMessage)
  {
    match env.ballotBoxPublicKey
    case Err(e) => Err(Transport(e))
    case Ok(pem) =>
      if !Present(resp.ballotId) || !Present(resp.signature) then Err(MissingReceiptField)
      else
        var ballotId := resp.ballotId.value;
        var digest := ReceiptDigest(env, ballotId, ciphertext);
        var signature := Base64.Decode(resp.signature.value);
        match env.importSpki(CryptoUtils.PemToDer(pem))
        case None => Err(KeyImportFailed)
        case Some(key) =>
          if !env.verifyPss(key, ReceiptSaltLength, signature, digest) then Err(VerificationFailed)
          else Ok(Receipt(OrElse(resp.success, true), OrElse(resp.message, DefaultMessage),
                          ballotId, ciphertext, BlindRsa.LowerHex(digest)))
  }

  /** The server data of one run is decodable, for the body that run posts. */
  predicate SubmitDecodable(env: BallotEnv, payload: BallotSubmissionPayload)
  {
    env.tallyPublicKey.Ok? && env.post(PostedBody(env, payload, env.tallyPublicKey.value)).Ok?
    ==> ResponseDecodable(env, env.post(PostedBody(env, payload, env.tallyPublicKey.value)).value)
  }

  /** services/submitBallot.ts:30-101. A receipt comes back only when both requests
      before the check succeeded and the acceptance rule holds for the ciphertext that
      was sent; it echoes that ciphertext and the ballot id. */
  function SubmitBallot(env: BallotEnv, payload: BallotSubmissionPayload): (r: Result<Receipt, SubmitError>)
    requires SubmitDecodable(env, payload)
    ensures env.tallyPublicKey.Err? ==> r == Err(Transport(env.tallyPublicKey.error))
    ensures env.tallyPublicKey.Ok? && env.post(PostedBody(env, payload, env.tallyPublicKey.value)).Err?
            ==> r == Err(Transport(env.post(PostedBody(env, payload, env.tallyPublicKey.value)).error))
    ensures r.Ok? ==>
      && env.tallyPublicKey.Ok?
      && var resp := env.post(PostedBody(env, payload, env.tallyPublicKey.value));
      && resp.Ok?
      && ReceiptVerifies(env, Seal(env, payload.candidateId).ciphertext, resp.value)
      && r.value.ciphertext == Seal(env, payload.candidateId).ciphertext
      && r.value.ballotId == resp.value.ballotId.value
    ensures env.tallyPublicKey.Ok? ==>
      var body := PostedBody(env, payload, env.tallyPublicKey.value);
      && body.tokenSignature == payload.signature && body.token == payload.preparedMessage
      && body.encryptedBallot == Seal(env, payload.candidateId).ciphertext
      && (env.post(body).Ok? ==> r == AcceptReceipt(env, body.encryptedBallot, env.post(body).value))
  {
    var sealed := Seal(env, payload.candidateId);
    match env.tallyPublicKey
    case Err(e) => Err(Transport(e))
    case Ok(tallyPem) =>
      match env.post(PostedBody(env, payload, tallyPem))
      case Err(e) => Err(Transport(e))
      case Ok(resp) => AcceptReceipt(env, sealed.ciphertext, resp)
  }

  // ----- what the acceptance rule guarantees -----

  /** The `hash` of a receipt is the digest that was verified, in hex: decoding it
      gives the digest back, and a 32-byte digest gives 64 characters. */
  lemma ReceiptHashIsDigest(env: BallotEnv, ciphertext: string, resp: SubmitResponse)
    requires ResponseDecodable(env, resp)
    requires AcceptReceipt(env, ciphertext, resp).Ok?
    ensures var d := ReceiptDigest(env, resp.ballotId.value, ciphertext);
      var h := AcceptReceipt(env, ciphertext, resp).value.hash;
      && BlindRsa.IsHexInput(h) && BlindRsa.HexBytes(h) == d
      && (|d| == 32 ==> |h| == 64)
  {
    BlindRsa.HexRoundTrip(ReceiptDigest(env, resp.ballotId.value, ciphertext));
  }

  /** One signature verifies at most one digest under one key, as far as two given
      digests go. */
  predicate BindsOneDigest(env: BallotEnv, key: CryptoKey, sig: seq<byte>, d1: seq<byte>, d2: seq<byte>)
  {
    env.verifyPss(key, ReceiptSaltLength, sig, d1) && env.verifyPss(key, ReceiptSaltLength, sig, d2) ==> d1 == d2
  }

  /** The hash does not collide on two given inputs. */
  predicate NoCollision(env: BallotEnv, m1: seq<byte>, m2: seq<byte>)
  {
    env.sha256(m1) == env.sha256(m2) ==> m1 == m2
  }

  /** Altering the ciphertext is detected: if a signature binds one digest and the
      hash does not collide, one receipt is accepted for at most one ciphertext. */
  lemma ReceiptBindsCiphertext(env: BallotEnv, resp: SubmitResponse, c1: string, c2: string)
    requires ResponseDecodable(env, resp)
    requires ReceiptVerifies(env, c1, resp) && ReceiptVerifies(env, c2, resp)
    requires NoCollision(env, ReceiptMessage(resp.ballotId.value, c1), ReceiptMessage(resp.ballotId.value, c2))
    requires BindsOneDigest(env, VerifyKey(env).value, SignatureBytes(resp),
                            ReceiptDigest(env, resp.ballotId.value, c1), ReceiptDigest(env, resp.ballotId.value, c2))
    ensures c1 == c2
  {
    var id := Utf8(resp.ballotId.value);
    var m1, m2 := ReceiptMessage(resp.ballotId.value, c1), ReceiptMessage(resp.ballotId.value, c2);
    assert m1 == m2;
    assert Utf8(c1) == m1[|id|..];
    assert Utf8(c2) == m2[|id|..];
    Utf8Injective(c1, c2);
  }

  /** Altering the ballot id is detected in the same way: under one signature and one
      ciphertext, at most one ballot id is accepted. */
  lemma ReceiptBindsBallotId(env: BallotEnv, resp1: SubmitResponse, resp2: SubmitResponse, c: string)
    requires resp1.signature == resp2.signature
    requires ResponseDecodable(env, resp1) && ResponseDecodable(env, resp2)
    requires ReceiptVerifies(env, c, resp1) && ReceiptVerifies(env, c, resp2)
    requires NoCollision(env, ReceiptMessage(resp1.ballotId.value, c), ReceiptMessage(resp2.ballotId.value, c))
    requires BindsOneDigest(env, VerifyKey(env).value, SignatureBytes(resp1),
                            ReceiptDigest(env, resp1.ballotId.value, c), ReceiptDigest(env, resp2.ballotId.value, c))
    ensures resp1.ballotId == resp2.ballotId
  {
    var a, b := resp1.ballotId.value, resp2.ballotId.value;
    var m1, m2 := ReceiptMessage(a, c), ReceiptMessage(b, c);
    assert m1 == m2;
    assert |Utf8(a)| == |Utf8(b)|;
    assert Utf8(a) == m1[..|Utf8(a)|];
    assert Utf8(b) == m2[..|Utf8(b)|];
    Utf8Injective(a, b);
  }

  /** Because nothing separates the two parts, moving the boundary between ballot id
      and ciphertext leaves the hashed bytes unchanged: a receipt for ballot "ab" with
      ciphertext "c" is equally accepted for ballot "a" with ciphertext "bc". */
  lemma BoundaryShiftUndetected(env: BallotEnv, resp: SubmitResponse)
    requires ResponseDecodable(env, resp)
    ensures ReceiptMessage("ab", "c") == ReceiptMessage("a", "bc")
    ensures resp.ballotId == Some("ab") ==>
      (ReceiptVerifies(env, "c", resp) <==> ReceiptVerifies(env, "bc", resp.(ballotId := Some("a"))))
  {
    assert Utf8("ab") == [97, 98] by {
      assert "ab"[1..] == "b";
      assert "b"[1..] == "";
    }
    assert Utf8("bc") == [98, 99] by {
      assert "bc"[1..] == "c";
      assert "c"[1..] == "";
    }
    assert Utf8("a") == [97] by {
      assert "a"[1..] == "";
    }
    assert Utf8("c") == [99] by {
      assert "c"[1..] == "";
    }
  }
}
