/** utils/crypto-utils.ts: PEM armouring and de-armouring, concatenation of byte
    arrays, and the choice of signing algorithm from the shape of a stored secret. The
    signing primitives themselves (WebCrypto RSA-PSS, tweetnacl Ed25519) are parameters. */
module CryptoUtils {
  import opened Text
  import opened Wrappers
  import Base64

  // ----- toPem (utils/crypto-utils.ts:4-8) -----

  /** `text.match(/.{1,64}/g) || []` on text without line terminators: greedy pieces
      of 64 characters, the last one shorter, none for the empty text. */
  function Chunks(text: string): (lines: seq<string>)
    ensures forall i | 0 <= i < |lines| :: 0 < |lines[i]| <= 64
    ensures forall i | 0 <= i < |lines| - 1 :: |lines[i]| == 64
    ensures Concat(lines) == text
    decreases |text|
  {
    if text == [] then []
    else if |text| <= 64 then [text]
    else [text[..64]] + Chunks(text[64..])
  }

  function Concat(lines: seq<string>): string
  {
    if lines == [] then "" else lines[0] + Concat(lines[1..])
  }

  /** `lines.join(sep)`. */
  function Join(lines: seq<string>, sep: string): (r: string)
    ensures |lines| >= 1 ==> |r| == |Concat(lines)| + (|lines| - 1) * |sep|
  {
    if |lines| == 0 then ""
    else if |lines| == 1 then lines[0]
    else lines[0] + sep + Join(lines[1..], sep)
  }

  const Dashes := "-----"

  function BeginLine(header: string): string
  {
    Dashes + ("BEGIN " + header) + Dashes
  }

  function EndLine(header: string): string
  {
    Dashes + ("END " + header) + Dashes
  }

  /** The PEM text of DER bytes: the begin line, the base 64 body in lines of at most
      64 characters, the end line, each followed by a line feed. */
  function ToPem(header: string, der: seq<byte>): (pem: string)
    ensures StartsWith(pem, BeginLine(header) + "\n")
    ensures pem[|pem| - |EndLine(header) + "\n"| - 1..] == "\n" + EndLine(header) + "\n"
  {
    var front := BeginLine(header) + "\n" + Join(Chunks(Base64.Encode(der)), "\n");
    LineEnds(BeginLine(header) + "\n", Join(Chunks(Base64.Encode(der)), "\n"), EndLine(header));
    front + "\n" + EndLine(header) + "\n"
  }

  /** Text built as a, m, a line feed, e and a line feed starts with a and ends with
      the last two lines. */
  lemma LineEnds(a: string, m: string, e: string)
    ensures StartsWith(a + m + "\n" + e + "\n", a)
    ensures var t := a + m + "\n" + e + "\n"; t[|t| - |e + "\n"| - 1..] == "\n" + e + "\n"
  {
    var t := a + m + "\n" + e + "\n";
    assert t == a + (m + "\n" + e + "\n");
    assert t == (a + m) + ("\n" + e + "\n");
  }

  /** The body of `ToPem` is the base 64 text of the bytes, cut into lines. */
  lemma ToPemBody(header: string, der: seq<byte>)
    ensures ToPem(header, der)
         == BeginLine(header) + "\n" + Join(Chunks(Base64.Encode(der)), "\n") + "\n" + EndLine(header) + "\n"
    ensures Concat(Chunks(Base64.Encode(der))) == Base64.Encode(der)
    ensures forall l | l in Chunks(Base64.Encode(der)) :: 0 < |l| <= 64
  {
  }

  // ----- pemToDer (utils/crypto-utils.ts:10-13) -----

  /** The number of characters other than `-` at the start of the text. */
  function NonDashRun(s: string): (n: nat)
    ensures n <= |s|
    ensures '-' !in s[..n]
    ensures n == |s| || s[n] == '-'
  {
    if s == [] || s[0] == '-' then 0
    else
      assert s[..1 + NonDashRun(s[1..])] == [s[0]] + s[1..][..NonDashRun(s[1..])];
      1 + NonDashRun(s[1..])
  }

  /** `/-----[^-]+-----/` matches the first k characters of the text. */
  predicate IsMarker(s: string, k: int)
  {
    && 10 < k <= |s|
    && s[..5] == Dashes
    && '-' !in s[5..k - 5]
    && s[k - 5..k] == Dashes
  }

  /** Every match at the start ends where the run of characters other than `-` after
      the first five dashes ends. */
  lemma MarkerEndsRun(s: string)
    requires |s| >= 5
    ensures forall k | IsMarker(s, k) :: NonDashRun(s[5..]) == k - 10
  {
    forall k | IsMarker(s, k)
      ensures NonDashRun(s[5..]) == k - 10
    {
      assert s[k - 5] == '-';
    }
  }

  /** The length of the match of `/-----[^-]+-----/` at the start of the text, or 0
      when there is none. `[^-]` cannot match `-`, so there is at most one match
      length, whatever a backtracking engine tries. */
  function MarkerLength(s: string): (n: nat)
    ensures n == 0 || 10 < n <= |s|
    ensures n > 0 ==> IsMarker(s, n)
    ensures forall k | IsMarker(s, k) :: k == n
  {
    if StartsWith(s, Dashes) then
      MarkerEndsRun(s);
      var run := NonDashRun(s[5..]);
      if run > 0 && StartsWith(s[5 + run..], Dashes) then 10 + run else 0
    else 0
  }

  /** `s.replace(/-----[^-]+-----/g, "")`: scanning from the left, each match is cut
      out and the scan goes on after it. */
  function StripMarkers(s: string): (r: string)
    ensures |r| <= |s|
    decreases |s|
  {
    if s == [] then []
    else if MarkerLength(s) > 0 then StripMarkers(s[MarkerLength(s)..])
    else [s[0]] + StripMarkers(s[1..])
  }

  /** What is left of PEM text for base 64 decoding: markers cut, white space gone. */
  function PemBody(pem: string): (body: string)
    ensures NoWhitespace(body)
  {
    RemoveWhitespace(StripMarkers(pem))
  }

  predicate PemDecodable(pem: string)
  {
    Base64.WellFormed(PemBody(pem))
  }

  /** The DER bytes of PEM text whose body is well-formed base 64. */
  function PemToDer(pem: string): (der: seq<byte>)
    requires PemDecodable(pem)
    ensures '-' !in pem ==> Base64.WellFormed(RemoveWhitespace(pem)) && der == Base64.Decode(RemoveWhitespace(pem))
  {
    StripDashFree(pem);
    Base64.Decode(PemBody(pem))
  }

  /** Text without `-` passes the marker scan unchanged. */
  lemma {:induction false} StripPlain(x: string, rest: string)
    requires '-' !in x
    ensures StripMarkers(x + rest) == x + StripMarkers(rest)
  {
    if x != [] {
      assert (x + rest)[0] == x[0];
      assert MarkerLength(x + rest) == 0;
      assert (x + rest)[1..] == x[1..] + rest;
      assert x[0] in x;
      StripPlain(x[1..], rest);
      calc {
        StripMarkers(x + rest);
        [x[0]] + StripMarkers(x[1..] + rest);
        [x[0]] + (x[1..] + StripMarkers(rest));
        ([x[0]] + x[1..]) + StripMarkers(rest);
        { assert [x[0]] + x[1..] == x; }
        x + StripMarkers(rest);
      }
    } else {
      assert x + rest == rest;
    }
  }

  lemma StripDashFree(s: string)
    ensures '-' !in s ==> StripMarkers(s) == s
  {
    if '-' !in s {
      StripPlain(s, []);
      assert s + [] == s;
    }
  }

  lemma {:induction false} NonDashRunPlain(x: string, rest: string)
    requires '-' !in x
    requires rest == [] || rest[0] == '-'
    ensures NonDashRun(x + rest) == |x|
  {
    if x != [] {
      assert x[0] in x;
      assert (x + rest)[1..] == x[1..] + rest;
      NonDashRunPlain(x[1..], rest);
    } else {
      assert x + rest == rest;
    }
  }

  /** A marker whose inner has no `-` is cut from the front. */
  lemma StripFrontMarker(inner: string, rest: string)
    requires '-' !in inner && inner != []
    ensures StripMarkers(Dashes + inner + Dashes + rest) == StripMarkers(rest)
  {
    var s := Dashes + inner + Dashes + rest;
    assert s[..5] == Dashes;
    assert s[5..] == inner + (Dashes + rest);
    NonDashRunPlain(inner, Dashes + rest);
    assert s[5 + |inner|..] == Dashes + rest;
    assert MarkerLength(s) == 10 + |inner|;
    assert s[10 + |inner|..] == rest;
  }

  /** Lines of base 64 joined by line feeds lose exactly the line feeds. */
  lemma {:induction false} JoinChunksPlain(text: string)
    requires NoWhitespace(text) && '-' !in text
    ensures RemoveWhitespace(Join(Chunks(text), "\n")) == text
    ensures '-' !in Join(Chunks(text), "\n")
    decreases |text|
  {
    if |text| > 64 {
      var head, tail := text[..64], text[64..];
      assert text == head + tail;
      JoinChunksPlain(tail);
      var rest := Join(Chunks(tail), "\n");
      assert Chunks(text)[1..] == Chunks(tail);
      assert Join(Chunks(text), "\n") == head + "\n" + rest;
      assert NoWhitespace(head);
      assert RemoveWhitespace(head) == head;
      assert RemoveWhitespace("\n") == [];
      RemoveWhitespaceAppend(head, "\n");
      RemoveWhitespaceAppend(head + "\n", rest);
      assert '-' !in head;
    } else if text != [] {
      assert Chunks(text) == [text];
    }
  }

  lemma ToPemShape(header: string, der: seq<byte>, body: string)
    requires body == Join(Chunks(Base64.Encode(der)), "\n")
    ensures ToPem(header, der)
         == Dashes + ("BEGIN " + header) + Dashes + (("\n" + body + "\n") + (EndLine(header) + "\n"))
  {
  }

  /** The marker scan of `ToPem` leaves the body between two line feeds, and one more. */
  lemma StripToPem(header: string, der: seq<byte>, body: string)
    requires '-' !in header && '-' !in body
    requires body == Join(Chunks(Base64.Encode(der)), "\n")
    ensures StripMarkers(ToPem(header, der)) == "\n" + body + "\n" + "\n"
  {
    var middle := "\n" + body + "\n";
    var tail := EndLine(header) + "\n";
    assert '-' !in middle;
    ToPemShape(header, der, body);
    StripFrontMarker("BEGIN " + header, middle + tail);
    StripPlain(middle, tail);
    StripEndLine(header);
  }

  lemma StripEndLine(header: string)
    requires '-' !in header
    ensures StripMarkers(EndLine(header) + "\n") == "\n"
  {
    assert EndLine(header) + "\n" == Dashes + ("END " + header) + Dashes + "\n";
    StripFrontMarker("END " + header, "\n");
    StripPlain("\n", "");
  }

  /** pemToDer(toPem(h, der)) == der, for any header without `-`. */
  lemma PemRoundTrip(header: string, der: seq<byte>)
    requires '-' !in header
    ensures PemDecodable(ToPem(header, der))
    ensures PemToDer(ToPem(header, der)) == der
  {
    var text := Base64.Encode(der);
    var body := Join(Chunks(text), "\n");
    Base64.EncodeIsPlain(der);
    JoinChunksPlain(text);
    StripToPem(header, der, body);
    RemoveWhitespaceAppend("\n", body);
    RemoveWhitespaceAppend("\n" + body, "\n");
    RemoveWhitespaceAppend("\n" + body + "\n", "\n");
    assert PemBody(ToPem(header, der)) == text;
    Base64.DecodeEncode(der);
  }

  /** Armoured text: a begin line, a body, an end line and a trailer. */
  lemma ArmourShape(h: string, x: string, y: string)
    ensures BeginLine(h) + x + EndLine(h) + y
         == Dashes + ("BEGIN " + h) + Dashes + (x + (Dashes + ("END " + h) + Dashes + y))
  {
  }

  /** `pemToDer` of any PEM whose header and text are free of `-`: both armour lines
      are cut, white space is dropped, and what is left is decoded. */
  lemma PemToDerArmoured(h: string, x: string, y: string)
    requires '-' !in h && '-' !in x && '-' !in y
    requires Base64.WellFormed(RemoveWhitespace(x + y))
    ensures PemDecodable(BeginLine(h) + x + EndLine(h) + y)
    ensures PemToDer(BeginLine(h) + x + EndLine(h) + y) == Base64.Decode(RemoveWhitespace(x + y))
  {
    var pem := BeginLine(h) + x + EndLine(h) + y;
    var begin, end := "BEGIN " + h, "END " + h;
    assert '-' !in begin && '-' !in end;
    ArmourShape(h, x, y);
    StripFrontMarker(begin, x + (Dashes + end + Dashes + y));
    StripPlain(x, Dashes + end + Dashes + y);
    StripFrontMarker(end, y);
    StripDashFree(y);
    assert StripMarkers(pem) == x + y;
  }

  /** The round trip needs the header to be free of `-`: with the header "A-B" the
      begin line is not a marker, so its dashes stay in the body, which is then not
      base 64. */
  lemma PemRoundTripNeedsPlainHeader()
    ensures !PemDecodable(ToPem("A-B", []))
  {
    var pem := ToPem("A-B", []);
    assert pem[..5] == Dashes;
    assert pem[5..][..7] == "BEGIN A" && pem[5..][7] == '-';
    NonDashRunPlain("BEGIN A", pem[12..]);
    assert pem[5..] == "BEGIN A" + pem[12..];
    assert pem[12..][1] == 'B';
    assert MarkerLength(pem) == 0;
    var body := PemBody(pem);
    assert body[0] == '-';
    WellFormedHasNoDash(body);
  }

  lemma WellFormedHasNoDash(s: string)
    requires s != [] && s[0] == '-'
    ensures !Base64.WellFormed(s)
  {
  }

  // ----- concatUint8 (utils/crypto-utils.ts:29-38) -----

  /** `arrs.reduce((s, a) => s + a.length, 0)`. */
  function TotalLength(arrs: seq<seq<byte>>): (n: nat)
    ensures forall i | 0 <= i < |arrs| :: |arrs[i]| <= n
  {
    if arrs == [] then 0 else TotalLength(arrs[..|arrs| - 1]) + |arrs[|arrs| - 1]|
  }

  /** The arrays one after the other. */
  function Flatten(arrs: seq<seq<byte>>): (r: seq<byte>)
    ensures |r| == TotalLength(arrs)
  {
    if arrs == [] then [] else Flatten(arrs[..|arrs| - 1]) + arrs[|arrs| - 1]
  }

  lemma {:induction false} FlattenPrefix(arrs: seq<seq<byte>>, j: nat)
    requires j <= |arrs|
    ensures |Flatten(arrs[..j])| <= |Flatten(arrs)|
    ensures Flatten(arrs)[..|Flatten(arrs[..j])|] == Flatten(arrs[..j])
    decreases |arrs| - j
  {
    if j < |arrs| {
      var n := |arrs|;
      assert arrs[..n][..n - 1] == arrs[..n - 1];
      assert arrs[..n] == arrs;
      FlattenPrefix(arrs[..n - 1], j);
      assert arrs[..n - 1][..j] == arrs[..j];
    } else {
      assert arrs[..j] == arrs;
    }
  }

  /** Two arrays are joined end to end. */
  lemma FlattenPair(a: seq<byte>, b: seq<byte>)
    ensures Flatten([a, b]) == a + b
  {
    assert [a, b][..1] == [a];
    assert [a][..0] == [];
    assert Flatten([a]) == Flatten([]) + a;
    assert [] + a == a;
  }

  /** Input k sits in the result at offset len(0) + … + len(k-1). */
  lemma FlattenSlice(arrs: seq<seq<byte>>, k: nat)
    requires k < |arrs|
    ensures TotalLength(arrs[..k]) + |arrs[k]| <= |Flatten(arrs)|
    ensures Flatten(arrs)[TotalLength(arrs[..k])..TotalLength(arrs[..k]) + |arrs[k]|] == arrs[k]
  {
    assert arrs[..k + 1][..k] == arrs[..k];
    assert Flatten(arrs[..k + 1]) == Flatten(arrs[..k]) + arrs[k];
    FlattenPrefix(arrs, k + 1);
  }

  /** `TypedArray.prototype.set`: `a` is copied in at `offset`, the rest is untouched. */
  method Set(out: array<byte>, a: seq<byte>, offset: nat)
    requires offset + |a| <= out.Length
    modifies out
    ensures out[..] == old(out[..offset]) + a + old(out[offset + |a|..])
  {
    for j := 0 to |a|
      invariant out[..offset] == old(out[..offset])
      invariant out[offset..offset + j] == a[..j]
      invariant out[offset + |a|..] == old(out[offset + |a|..])
    {
      out[offset + j] := a[j];
      assert out[offset..offset + j + 1] == out[offset..offset + j] + [a[j]];
    }
    assert out[..] == out[..offset] + out[offset..offset + |a|] + out[offset + |a|..];
  }

  /** Concatenates the arrays into one new array of the total length. */
  method ConcatUint8(arrs: seq<seq<byte>>) returns (r: seq<byte>)
    ensures r == Flatten(arrs)
  {
    var total := TotalLength(arrs);
    var out := new byte[total];
    var offset := 0;
    for k := 0 to |arrs|
      invariant offset == TotalLength(arrs[..k])
      invariant offset <= total
      invariant out[..offset] == Flatten(arrs[..k])
    {
      FlattenSlice(arrs, k);
      assert arrs[..k + 1][..k] == arrs[..k];
      Set(out, arrs[k], offset);
      offset := offset + |arrs[k]|;
      assert out[..offset] == Flatten(arrs[..k]) + arrs[k];
    }
    assert arrs[..|arrs|] == arrs;
    r := out[..];
  }

  // ----- signWithStoredPrivateKey (utils/crypto-utils.ts:46-80) -----

  /** The signing primitives the function reaches: WebCrypto's PKCS#8 import and
      RSA-PSS sign (with whether `subtle.sign` exists), and tweetnacl's
      `sign.keyPair.fromSeed(seed).secretKey` and `sign.detached(data, secretKey)`. */
  datatype Signer = Signer(
    importPkcs8: seq<byte> -> Option<CryptoKey>,
    hasSubtleSign: bool,
    rsaPssSign: (CryptoKey, int, seq<byte>) -> seq<byte>,
    secretKeyFromSeed: seq<byte> -> seq<byte>,
    signDetached: (seq<byte>, seq<byte>) -> seq<byte>)

  datatype SignError =
    | KeyImportFailed       // importKey rejected the PKCS#8 bytes
    | SignUnavailable       // "crypto.subtle.sign is not available"
    | UnsupportedKeyFormat  // "Unsupported private key format"

  /** The three shapes a stored secret can have. */
  datatype SigningSecret =
    | PemKey(der: seq<byte>)
    | SecretKey(key: seq<byte>)
    | Seed(seed: seq<byte>)

  /** RSA-PSS with SHA-384 signs with a salt as long as the hash output. */
  const PemSaltLength := 48

  predicate IsPemSecret(secret: string)
  {
    StartsWith(Trim(secret), "-----BEGIN")
  }

  /** Secrets the model can decode: a PEM with a base 64 body, or base 64. */
  predicate SecretDecodable(secret: string)
  {
    if IsPemSecret(secret) then PemDecodable(secret) else Base64.WellFormed(secret)
  }

  /** Which path a secret takes: PEM, else a 64-byte secret key, else a 32-byte seed. */
  function Classify(secret: string): (r: Result<SigningSecret, SignError>)
    requires SecretDecodable(secret)
    ensures r.Ok? && r.value.PemKey? <==> IsPemSecret(secret)
    ensures r.Ok? && r.value.SecretKey? ==> |r.value.key| == 64
    ensures r.Ok? && r.value.Seed? ==> |r.value.seed| == 32
    ensures r.Err? ==> r.error == UnsupportedKeyFormat && !IsPemSecret(secret)
    ensures IsPemSecret(secret) ==> r == Ok(PemKey(PemToDer(secret)))
    ensures !IsPemSecret(secret) ==>
      var raw := Base64.Decode(secret);
      && (|raw| == 64 ==> r == Ok(SecretKey(raw)))
      && (|raw| == 32 ==> r == Ok(Seed(raw)))
      && (|raw| != 64 && |raw| != 32 ==> r == Err(UnsupportedKeyFormat))
  {
    if IsPemSecret(secret) then Ok(PemKey(PemToDer(secret)))
    else
      var raw := Base64.Decode(secret);
      if |raw| == 64 then Ok(SecretKey(raw))
      else if |raw| == 32 then Ok(Seed(raw))
      else Err(UnsupportedKeyFormat)
  }

  function SignWith(signer: Signer, secret: SigningSecret, data: seq<byte>): Result<seq<byte>, SignError>
  {
    match secret
    case PemKey(der) =>
      (match signer.importPkcs8(der)
       case None => Err(KeyImportFailed)
       case Some(key) =>
         if !signer.hasSubtleSign then Err(SignUnavailable)
         else Ok(signer.rsaPssSign(key, PemSaltLength, data)))
    case SecretKey(key) => Ok(signer.signDetached(data, key))
    case Seed(seed) => Ok(signer.signDetached(data, signer.secretKeyFromSeed(seed)))
  }

  /** Signs `data` with the stored secret. A secret whose trimmed text starts with
      `-----BEGIN` is a PKCS#8 PEM and is used with RSA-PSS, salt 48, failing when the
      key does not import or `subtle.sign` is missing. Any other secret is base 64: 64
      bytes are a tweetnacl secret key, 32 bytes a seed whose derived secret key is
      used, any other length is rejected. */
  function SignWithStoredPrivateKey(signer: Signer, secret: string, data: seq<byte>)
    : (r: Result<seq<byte>, SignError>)
    requires SecretDecodable(secret)
    ensures IsPemSecret(secret) ==>
      var key := signer.importPkcs8(PemToDer(secret));
      && (r.Ok? <==> key.Some? && signer.hasSubtleSign)
      && (r.Ok? ==> r.value == signer.rsaPssSign(key.value, 48, data))
      && (key.None? ==> r == Err(KeyImportFailed))
      && (key.Some? && !signer.hasSubtleSign ==> r == Err(SignUnavailable))
    ensures !IsPemSecret(secret) ==>
      var raw := Base64.Decode(secret);
      && (|raw| == 64 ==> r == Ok(signer.signDetached(data, raw)))
      && (|raw| == 32 ==> r == Ok(signer.signDetached(data, signer.secretKeyFromSeed(raw))))
      && (|raw| != 64 && |raw| != 32 ==> r == Err(UnsupportedKeyFormat))
  {
    match Classify(secret)
    case Err(e) => Err(e)
    case Ok(s) => SignWith(signer, s, data)
  }

  /** A PEM produced by `ToPem` (header without `-`) is recognised as PEM and yields
      the DER bytes it armours. */
  lemma ClassifyPem(header: string, der: seq<byte>)
    requires '-' !in header
    ensures SecretDecodable(ToPem(header, der))
    ensures Classify(ToPem(header, der)) == Ok(PemKey(der))
  {
    var pem := ToPem(header, der);
    assert pem[..10] == "-----BEGIN";
    TrimKeepsPrefix(pem, "-----BEGIN");
    PemRoundTrip(header, der);
  }

  /** Base 64 text is never taken for PEM. */
  lemma Base64IsNotPem(raw: seq<byte>)
    ensures !IsPemSecret(Base64.Encode(raw))
  {
    var text := Base64.Encode(raw);
    Base64.EncodeIsPlain(raw);
    TrimNoWhitespace(text);
    NotStartsWithDash(text, "-----BEGIN");
  }

  /** The base 64 text of raw key bytes takes the tweetnacl path, by length. */
  lemma ClassifyBase64(raw: seq<byte>)
    ensures SecretDecodable(Base64.Encode(raw))
    ensures Classify(Base64.Encode(raw))
         == if |raw| == 64 then Ok(SecretKey(raw))
            else if |raw| == 32 then Ok(Seed(raw))
            else Err(UnsupportedKeyFormat)
  {
    Base64IsNotPem(raw);
    Base64.DecodeEncode(raw);
  }
}
