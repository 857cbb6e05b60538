/** The live credential and token utilities of package utils (authutils.go):
    refresh and reset tokens from random bytes, the salted scrypt password digest,
    and the RS256-signed access token whose header nevertheless names "HS256".

    Randomness, the clock and the RSA keys are parameters; the primitives and
    the JSON codecs are the records of module Crypto. */
module AuthUtils {
  import opened Wrappers
  import opened GoStrings
  import opened Crypto
  import Hex
  import Base64

  /** What randomCryptoBytes fills from crypto/rand. */
  type Random16 = b: seq<byte> | |b| == 16 witness seq(16, _ => 0)

  // ---- Refresh and reset tokens ----

  /** GenerateCryptoString: the hexadecimal text of 16 random bytes, or the error of crypto/rand. */
  function GenerateCryptoString(rnd: Result<Random16, string>): (r: Result<string, string>)
    ensures r.Success? <==> rnd.Success?
    ensures r.Success? ==> |r.value| == 32 && Hex.DecodeString(r.value) == Some(rnd.value)
    ensures r.Failure? ==> r.error == rnd.error
  {
    match rnd
    case Failure(e) => Failure(e)
    case Success(b) =>
      Hex.DecodeEncode(b);
      Success(Hex.EncodeToString(b))
  }

  // ---- Password digests ----

  const SaltLen := 16
  const DigestLen := SaltLen + ScryptKeyLen

  /** hasher: the salt followed by the key scrypt derives from the password and that salt. */
  function Hasher(p: Primitives, salt: seq<byte>, password: string): (r: Result<seq<byte>, string>)
    ensures r.Success? <==> p.scryptKey(Utf8(password), salt, ScryptN, ScryptR, ScryptP, ScryptKeyLen).Success?
    ensures r.Success? ==> |r.value| >= |salt| && r.value[..|salt|] == salt
    ensures p.Sound() ==> r.Success? && |r.value| == |salt| + ScryptKeyLen
  {
    match p.scryptKey(Utf8(password), salt, ScryptN, ScryptR, ScryptP, ScryptKeyLen)
    case Failure(e) => Failure(e)
    case Success(key) => Success(salt + key)
  }

  /** GetPasswordHash: the standard base64 text of hasher's digest. Both errors are
      discarded: a failed random read leaves the salt empty, a failed hasher the digest. */
  function GetPasswordHash(p: Primitives, rnd: Result<Random16, string>, password: string): string {
    var salt: seq<byte> := if rnd.Success? then rnd.value else [];
    Base64.Encode(Base64.StdEncoding, Hasher(p, salt, password).GetOr([]))
  }

  /** The outcome of VerifyPassword: Go's (bool, error) pair, or the runtime panic of
      slicing a decoded buffer whose capacity is below 16. */
  datatype Verdict = Checked(matched: bool) | Errored(err: string) | Panicked

  /** The buffer Encoding.DecodeString fills: the decoded bytes, then zeros up to its capacity DecodedLen. */
  function DecodeBuffer(data: seq<byte>, cap: nat): (buf: seq<byte>)
    ensures |buf| >= |data| && |buf| >= cap && buf[..|data|] == data
    ensures |data| <= cap ==> |buf| == cap
  {
    data + seq(if cap > |data| then cap - |data| else 0, _ => 0)
  }

  /** Standard base64 lengths for the digest sizes that occur. */
  lemma DigestTextLengths()
    ensures Base64.EncodedLen(Base64.StdEncoding, 48) == 64 && Base64.DecodedLen(Base64.StdEncoding, 64) == 48
    ensures Base64.EncodedLen(Base64.StdEncoding, 32) == 44 && Base64.DecodedLen(Base64.StdEncoding, 44) == 33
  {
  }

  /** A padded decoding buffer is shorter than a salt exactly for texts under 24 characters. */
  lemma SaltCapacity(n: nat)
    ensures Base64.DecodedLen(Base64.StdEncoding, n) < SaltLen <==> n < 24
  {
  }

  /** The salt VerifyPassword reads from a stored text long enough to hold one: the
      first 16 bytes of the buffer DecodeString fills. */
  function StoredSalt(stored: string): (salt: seq<byte>)
    requires |stored| >= 24
    ensures |salt| == SaltLen
  {
    SaltCapacity(|stored|);
    DecodeBuffer(Base64.DecodeString(Base64.StdEncoding, stored).data, Base64.DecodedLen(Base64.StdEncoding, |stored|))[..SaltLen]
  }

  /** VerifyPassword: decode the stored text, take the first 16 bytes of the buffer
      as the salt, hash the password with it and compare the re-encoded digest
      with the stored text. */
  function VerifyPassword(p: Primitives, stored: string, password: string): (v: Verdict)
    ensures !Base64.DecodeString(Base64.StdEncoding, stored).ok ==> v.Errored?
    ensures v.Panicked? <==> Base64.DecodeString(Base64.StdEncoding, stored).ok && |stored| < 24
    ensures Base64.DecodeString(Base64.StdEncoding, stored).ok && |stored| >= 24 ==>
      var h := Hasher(p, StoredSalt(stored), password);
      && (h.Failure? ==> v == Errored(h.error))
      && (h.Success? ==> v == Checked(Base64.Encode(Base64.StdEncoding, h.value) == stored))
    ensures v == Checked(true) ==>
      exists salt: seq<byte> :: |salt| == SaltLen && Hasher(p, salt, password).Success?
        && stored == Base64.Encode(Base64.StdEncoding, Hasher(p, salt, password).value)
  {
    var decoded := Base64.DecodeString(Base64.StdEncoding, stored);
    SaltCapacity(|stored|);
    if !decoded.ok then Errored("illegal base64 data")
    else if Base64.DecodedLen(Base64.StdEncoding, |stored|) < SaltLen then Panicked
    else
      var salt := StoredSalt(stored);
      match Hasher(p, salt, password)
      case Failure(e) => Errored(e)
      case Success(digest) =>
        var rehashed := Base64.Encode(Base64.StdEncoding, digest);
        if |rehashed| != |stored| then Checked(false)
        else if rehashed != stored then Checked(false)
        else Checked(true)
  }

  /** A freshly computed digest has the documented layout: 64 characters of standard
      base64 that decode to the 16-byte salt followed by the 32-byte derived key. */
  lemma PasswordHashLayout(p: Primitives, salt: Random16, password: string)
    requires p.Sound()
    ensures var h := GetPasswordHash(p, Success(salt), password);
      var d := Base64.DecodeString(Base64.StdEncoding, h);
      && |h| == 64 && d.ok && |d.data| == DigestLen
      && d.data[..SaltLen] == salt
      && d.data[SaltLen..] == p.scryptKey(Utf8(password), salt, ScryptN, ScryptR, ScryptP, ScryptKeyLen).value
  {
    var key := p.scryptKey(Utf8(password), salt, ScryptN, ScryptR, ScryptP, ScryptKeyLen).value;
    var digest := Hasher(p, salt, password).value;
    assert digest == salt + key;
    assert |digest| == 48;
    var h := Base64.Encode(Base64.StdEncoding, digest);
    assert GetPasswordHash(p, Success(salt), password) == h;
    Base64.EncodeLength(Base64.StdEncoding, digest);
    DigestTextLengths();
    assert |h| == 64;
    Base64.DecodeEncode(Base64.StdEncoding, digest);
    assert digest[..SaltLen] == salt && digest[SaltLen..] == key;
  }

  /** Round trip: a password verifies against the digest made from it. */
  lemma VerifyGetPasswordHash(p: Primitives, salt: Random16, password: string)
    requires p.Sound()
    ensures VerifyPassword(p, GetPasswordHash(p, Success(salt), password), password) == Checked(true)
  {
    var h := GetPasswordHash(p, Success(salt), password);
    var digest := Hasher(p, salt, password).value;
    assert h == Base64.Encode(Base64.StdEncoding, digest);
    assert |digest| == 48;
    DigestTextLengths();
    Base64.EncodeLength(Base64.StdEncoding, digest);
    Base64.DecodeEncode(Base64.StdEncoding, digest);
    var decoded := Base64.DecodeString(Base64.StdEncoding, h);
    assert decoded.ok && decoded.data == digest;
    var cap := Base64.DecodedLen(Base64.StdEncoding, |h|);
    assert cap == 48;
    assert DecodeBuffer(digest, cap) == digest;
    assert digest[..SaltLen] == salt;
    assert Hasher(p, salt, password) == Success(digest);
  }

  /** When crypto/rand failed, GetPasswordHash stores the 44-character text of a bare
      32-byte key; re-hashing then yields 64 characters, so no password ever verifies. */
  lemma UnsaltedHashNeverVerifies(p: Primitives, err: string, password: string, attempt: string)
    requires p.Sound()
    ensures VerifyPassword(p, GetPasswordHash(p, Failure(err), password), attempt) == Checked(false)
  {
    var h := GetPasswordHash(p, Failure(err), password);
    var key := Hasher(p, [], password).value;
    assert h == Base64.Encode(Base64.StdEncoding, key);
    assert |key| == 32;
    DigestTextLengths();
    Base64.EncodeLength(Base64.StdEncoding, key);
    Base64.DecodeEncode(Base64.StdEncoding, key);
    var decoded := Base64.DecodeString(Base64.StdEncoding, h);
    assert decoded.ok && decoded.data == key;
    assert |h| == 44;
    var cap := Base64.DecodedLen(Base64.StdEncoding, |h|);
    assert cap == 33;
    var salt := DecodeBuffer(key, cap)[..SaltLen];
    var digest := Hasher(p, salt, attempt).value;
    assert |digest| == 48;
    Base64.EncodeLength(Base64.StdEncoding, digest);
    assert |Base64.Encode(Base64.StdEncoding, digest)| == 64;
  }

  // ---- Access tokens ----

  /** TokenClaims of the live revision; Exp is seconds since Go's zero time, so the
      zero value expires at 0. */
  datatype Claims = Claims(userId: int, username: string, isStaff: bool, exp: int)

  const ZeroClaims := Claims(0, "", false, 0)

  /** The header value the server pins. */
  const PinnedAlg := "HS256"

  /** The JSON side of the token: `header`, what json.Marshal makes of the fixed
      header map {"alg": "HS256", "typ": "JWT"}; the claims codec; and `headerAlg`,
      the "alg" entry json.Unmarshal yields for a header text ("" when it is absent
      or the text is not JSON). */
  datatype Codecs = Codecs(header: seq<byte>, claims: Json<Claims>, headerAlg: seq<byte> -> string)
  {
    ghost predicate Sound() {
      claims.Sound(ZeroClaims) && headerAlg(header) == PinnedAlg
    }
  }

  /** base64Encode: URL-alphabet base64 with the trailing '=' characters cut off. */
  function Base64Encode(src: seq<byte>): (r: string)
    ensures r == Base64.Encode(Base64.RawURLEncoding, src)
    ensures |r| == 0 || r[|r| - 1] != '='
    ensures forall i :: 0 <= i < |r| ==> Base64.IsSymbol(Base64.Url, r[i])
    ensures '.' !in r
  {
    Base64.TrimmedIsRaw(Base64.Url, src);
    RawUrlText(src);
    TrimRightRune(Base64.Encode(Base64.URLEncoding, src), '=')
  }

  /** Unpadded URL base64 is made of alphabet symbols only, none of them '=' or '.'. */
  lemma RawUrlText(src: seq<byte>)
    ensures var r := Base64.Encode(Base64.RawURLEncoding, src);
      && (forall i :: 0 <= i < |r| ==> Base64.IsSymbol(Base64.Url, r[i]))
      && (|r| == 0 || r[|r| - 1] != '=') && '.' !in r
  {
    var r := Base64.Encode(Base64.RawURLEncoding, src);
    Base64.EncodeAlphabet(Base64.RawURLEncoding, src);
    forall i | 0 <= i < |r| ensures r[i] != '=' && r[i] != '.' {
      assert Base64.IsSymbol(Base64.Url, r[i]);
    }
  }

  /** The bytes that are hashed and signed for a token: "seg0.seg1". */
  function SigningInput(p: Primitives, seg0: string, seg1: string): seq<byte> {
    p.sha256(Utf8(seg0 + "." + seg1))
  }

  /** The compact serialisation of a header and a payload signed with `priv`: three
      segments, the third a signature over the first two joined by '.'. */
  function SignedToken(p: Primitives, priv: Key, header: seq<byte>, payload: seq<byte>): (t: string)
    ensures var h, b := Base64Encode(header), Base64Encode(payload);
      Split(t, ".") == [h, b, Base64Encode(p.signPKCS1v15(priv, SigningInput(p, h, b)))]
  {
    var headerEnc := Base64Encode(header);
    var payloadEnc := Base64Encode(payload);
    var signerEnc := Base64Encode(p.signPKCS1v15(priv, SigningInput(p, headerEnc, payloadEnc)));
    SplitThree(headerEnc, payloadEnc, signerEnc, '.');
    headerEnc + "." + payloadEnc + "." + signerEnc
  }

  /** GenerateAccessToken (key loading and signing errors left out). */
  function GenerateAccessToken(p: Primitives, codecs: Codecs, priv: Key, claims: Claims): (t: string)
    ensures var h, b := Base64Encode(codecs.header), Base64Encode(codecs.claims.marshal(claims));
      Split(t, ".") == [h, b, Base64Encode(p.signPKCS1v15(priv, SigningInput(p, h, b)))]
  {
    SignedToken(p, priv, codecs.header, codecs.claims.marshal(claims))
  }

  /** The errors ValidateAccessToken returns. */
  datatype TokenError = IllegalBase64 | VerificationError | InvalidAlgorithm | Expired

  /** The error's text, which the middleware compares; the byte offset Go appends to
      "illegal base64 data at input byte" is not modelled. */
  function ErrorText(e: TokenError): string {
    match e
    case IllegalBase64 => "illegal base64 data at input byte"
    case VerificationError => "crypto/rsa: verification error"
    case InvalidAlgorithm => "invalid algorithm"
    case Expired => "expired"
  }

  /** ValidateAccessToken's outcome: the claims, an error, or the index-out-of-range
      panic of a token with fewer than three segments. */
  datatype Validation = Valid(claims: Claims) | Rejected(err: TokenError) | IndexPanic
  {
    /** The *TokenClaims Go returns beside the error: the zero claims with "expired", nil with any other error. */
    function ClaimsPointer(): Option<Claims> {
      match this
      case Valid(c) => Some(c)
      case Rejected(Expired) => Some(ZeroClaims)
      case Rejected(_) => None
      case IndexPanic => None
    }
  }

  /** The signature check of a split token: the third segment decodes under `sigEnc`
      and verifies over "seg0.seg1". */
  predicate SignatureValid(p: Primitives, pub: Key, token: seq<string>, sigEnc: Base64.Encoding)
    requires |token| >= 3
  {
    var sig := Base64.DecodeString(sigEnc, token[2]);
    sig.ok && p.verifyPKCS1v15(pub, SigningInput(p, token[0], token[1]), sig.data)
  }

  predicate AlgorithmPinned(codecs: Codecs, token: seq<string>)
    requires |token| >= 1
  {
    codecs.headerAlg(Base64.DecodeString(Base64.RawURLEncoding, token[0]).data) == PinnedAlg
  }

  /** The claims read from the payload segment decoded under `payloadEnc`; a decoding
      error is ignored, so the bytes decoded before it are unmarshalled. */
  function PayloadClaims(codecs: Codecs, token: seq<string>, payloadEnc: Base64.Encoding): Claims
    requires |token| >= 2
  {
    codecs.claims.unmarshal(Base64.DecodeString(payloadEnc, token[1]).data)
  }

  /** The validation pipeline with the two decoders as parameters: signature, then
      algorithm pin, then expiry. */
  function Validate(p: Primitives, codecs: Codecs, pub: Key, jwt: string, now: int,
                    sigEnc: Base64.Encoding, payloadEnc: Base64.Encoding): (r: Validation)
    ensures r.IndexPanic? <==> |Split(jwt, ".")| < 3
    ensures r.Rejected? && r.err != IllegalBase64 && r.err != VerificationError ==>
      SignatureValid(p, pub, Split(jwt, "."), sigEnc)
    ensures r == Rejected(Expired) ==> AlgorithmPinned(codecs, Split(jwt, "."))
    ensures r.Valid? <==>
      && |Split(jwt, ".")| >= 3
      && SignatureValid(p, pub, Split(jwt, "."), sigEnc)
      && AlgorithmPinned(codecs, Split(jwt, "."))
      && now <= PayloadClaims(codecs, Split(jwt, "."), payloadEnc).exp
    ensures r.Valid? ==> r.claims == PayloadClaims(codecs, Split(jwt, "."), payloadEnc)
    ensures |Split(jwt, ".")| >= 3 ==>
      var token := Split(jwt, ".");
      var sig := Base64.DecodeString(sigEnc, token[2]);
      && (!sig.ok ==> r == Rejected(IllegalBase64))
      && (sig.ok && !p.verifyPKCS1v15(pub, SigningInput(p, token[0], token[1]), sig.data) ==> r == Rejected(VerificationError))
      && (SignatureValid(p, pub, token, sigEnc) && !AlgorithmPinned(codecs, token) ==> r == Rejected(InvalidAlgorithm))
      && (SignatureValid(p, pub, token, sigEnc) && AlgorithmPinned(codecs, token) && PayloadClaims(codecs, token, payloadEnc).exp < now
          ==> r == Rejected(Expired))
  {
    var token := Split(jwt, ".");
    if |token| < 3 then IndexPanic
    else
      var sig := Base64.DecodeString(sigEnc, token[2]);
      if !sig.ok then Rejected(IllegalBase64)
      else if !p.verifyPKCS1v15(pub, SigningInput(p, token[0], token[1]), sig.data) then Rejected(VerificationError)
      else if !AlgorithmPinned(codecs, token) then Rejected(InvalidAlgorithm)
      else
        var payload := PayloadClaims(codecs, token, payloadEnc);
        if payload.exp < now then Rejected(Expired) else Valid(payload)
  }

  /** ValidateAccessToken as written: the signature is decoded with the padded URL
      alphabet and the payload with the unpadded standard alphabet. */
  function ValidateAccessTokenAsWritten(p: Primitives, codecs: Codecs, pub: Key, jwt: string, now: int): Validation {
    Validate(p, codecs, pub, jwt, now, Base64.URLEncoding, Base64.RawStdEncoding)
  }

  /** ValidateAccessToken with both segments decoded by the encoding that issued them. */
  function ValidateAccessToken(p: Primitives, codecs: Codecs, pub: Key, jwt: string, now: int): Validation {
    Validate(p, codecs, pub, jwt, now, Base64.RawURLEncoding, Base64.RawURLEncoding)
  }

  /** Segments after the third are never looked at. */
  lemma ExtraSegmentsIgnored(p: Primitives, codecs: Codecs, pub: Key, jwt: string, extra: string, now: int,
                             sigEnc: Base64.Encoding, payloadEnc: Base64.Encoding)
    requires |Split(jwt, ".")| >= 3
    ensures Validate(p, codecs, pub, jwt + "." + extra, now, sigEnc, payloadEnc)
         == Validate(p, codecs, pub, jwt, now, sigEnc, payloadEnc)
  {
    SplitConcat(jwt, '.', extra);
    var a, b := Split(jwt, "."), Split(jwt + "." + extra, ".");
    assert b[0] == a[0] && b[1] == a[1] && b[2] == a[2];
  }

  /** Round trip of the corrected validator: a token it issued is accepted with its
      claims until they expire, and reported "expired" afterwards. */
  lemma ValidateGenerated(p: Primitives, codecs: Codecs, priv: Key, claims: Claims, now: int)
    requires p.Sound() && codecs.Sound()
    ensures ValidateAccessToken(p, codecs, p.publicOf(priv), GenerateAccessToken(p, codecs, priv, claims), now)
         == if claims.exp < now then Rejected(Expired) else Valid(claims)
  {
    var t := GenerateAccessToken(p, codecs, priv, claims);
    var parts := Split(t, ".");
    Base64.DecodeEncode(Base64.RawURLEncoding, codecs.header);
    Base64.DecodeEncode(Base64.RawURLEncoding, codecs.claims.marshal(claims));
    Base64.DecodeEncode(Base64.RawURLEncoding, p.signPKCS1v15(priv, SigningInput(p, parts[0], parts[1])));
  }

  /** The signature the server attaches to a token for `claims`. */
  function IssuedSignature(p: Primitives, codecs: Codecs, priv: Key, claims: Claims): seq<byte> {
    var parts := Split(GenerateAccessToken(p, codecs, priv, claims), ".");
    p.signPKCS1v15(priv, SigningInput(p, parts[0], parts[1]))
  }

  /** Finding: the validator as written rejects, as illegal base64, every token whose
      signature length is not a multiple of 3, such as the 256 bytes of an RSA-2048 key. */
  lemma AsWrittenRejectsUnpaddedSignature(p: Primitives, codecs: Codecs, priv: Key, claims: Claims, now: int)
    requires |IssuedSignature(p, codecs, priv, claims)| % 3 != 0
    ensures ValidateAccessTokenAsWritten(p, codecs, p.publicOf(priv), GenerateAccessToken(p, codecs, priv, claims), now)
         == Rejected(IllegalBase64)
  {
    var sig := IssuedSignature(p, codecs, priv, claims);
    Base64.PaddedDecodeOfRaw(Base64.Url, sig);
  }

  /** Once the signature and the algorithm pass, the payload's expiry decides. */
  lemma ValidateOutcome(p: Primitives, codecs: Codecs, pub: Key, jwt: string, now: int,
                        sigEnc: Base64.Encoding, payloadEnc: Base64.Encoding, c: Claims)
    requires |Split(jwt, ".")| >= 3
    requires SignatureValid(p, pub, Split(jwt, "."), sigEnc) && AlgorithmPinned(codecs, Split(jwt, "."))
    requires PayloadClaims(codecs, Split(jwt, "."), payloadEnc) == c
    ensures Validate(p, codecs, pub, jwt, now, sigEnc, payloadEnc) == if c.exp < now then Rejected(Expired) else Valid(c)
  {
  }

  /** A generated token whose signature length is a multiple of 3 passes the signature
      and algorithm checks of the validator as written. */
  lemma AsWrittenPassesChecks(p: Primitives, codecs: Codecs, priv: Key, claims: Claims)
    requires p.Sound() && codecs.Sound()
    requires |IssuedSignature(p, codecs, priv, claims)| % 3 == 0
    ensures var parts := Split(GenerateAccessToken(p, codecs, priv, claims), ".");
      SignatureValid(p, p.publicOf(priv), parts, Base64.URLEncoding) && AlgorithmPinned(codecs, parts)
  {
    var parts := Split(GenerateAccessToken(p, codecs, priv, claims), ".");
    var sig := IssuedSignature(p, codecs, priv, claims);
    assert parts[2] == Base64.Encode(Base64.RawURLEncoding, sig);
    Base64.PaddedDecodeOfRaw(Base64.Url, sig);
    assert sig[..|sig| - |sig| % 3] == sig;
    Base64.DecodeEncode(Base64.RawURLEncoding, codecs.header);
  }

  /** Finding: with a signature it can decode, the validator as written still reads
      the payload with the standard alphabet, so a payload whose text holds '-' or
      '_' is cut short, unmarshals to the zero claims and is reported "expired",
      however far its real expiry lies in the future. */
  lemma AsWrittenExpiresUrlPayload(p: Primitives, codecs: Codecs, priv: Key, claims: Claims, now: int)
    requires p.Sound() && codecs.Sound()
    requires |IssuedSignature(p, codecs, priv, claims)| % 3 == 0
    requires UrlPayload(codecs, claims)
    requires now > 0
    ensures ValidateAccessTokenAsWritten(p, codecs, p.publicOf(priv), GenerateAccessToken(p, codecs, priv, claims), now)
         == Rejected(Expired)
  {
    var t := GenerateAccessToken(p, codecs, priv, claims);
    AsWrittenPassesChecks(p, codecs, priv, claims);
    AsWrittenReadsZeroClaims(p, codecs, priv, claims);
    ValidateOutcome(p, codecs, p.publicOf(priv), t, now, Base64.URLEncoding, Base64.RawStdEncoding, ZeroClaims);
  }

  /** The payload text of an issued token holds a symbol only the URL alphabet has. */
  predicate UrlPayload(codecs: Codecs, claims: Claims) {
    var text := Base64.Encode(Base64.RawURLEncoding, codecs.claims.marshal(claims));
    '-' in text || '_' in text
  }

  /** The unpadded standard decoder stops at the first URL symbol of such a payload,
      and the bytes before it unmarshal to the zero claims. */
  lemma AsWrittenReadsZeroClaims(p: Primitives, codecs: Codecs, priv: Key, claims: Claims)
    requires codecs.Sound() && UrlPayload(codecs, claims)
    ensures PayloadClaims(codecs, Split(GenerateAccessToken(p, codecs, priv, claims), "."), Base64.RawStdEncoding) == ZeroClaims
  {
    var parts := Split(GenerateAccessToken(p, codecs, priv, claims), ".");
    var payload := codecs.claims.marshal(claims);
    Base64.StdDecodeOfUrl(payload);
    var d := Base64.DecodeString(Base64.RawStdEncoding, parts[1]);
    assert !d.ok && d.data == payload[..|d.data|] && |d.data| < |payload|;
  }

  /** When neither happens, the validator as written agrees with the corrected one. */
  lemma AsWrittenAgreesOtherwise(p: Primitives, codecs: Codecs, priv: Key, claims: Claims, now: int)
    requires p.Sound() && codecs.Sound()
    requires |IssuedSignature(p, codecs, priv, claims)| % 3 == 0
    requires !UrlPayload(codecs, claims)
    ensures ValidateAccessTokenAsWritten(p, codecs, p.publicOf(priv), GenerateAccessToken(p, codecs, priv, claims), now)
         == if claims.exp < now then Rejected(Expired) else Valid(claims)
  {
    var t := GenerateAccessToken(p, codecs, priv, claims);
    var parts := Split(t, ".");
    AsWrittenPassesChecks(p, codecs, priv, claims);
    assert PayloadClaims(codecs, parts, Base64.RawStdEncoding) == claims by {
      Base64.StdDecodeOfUrl(codecs.claims.marshal(claims));
    }
    ValidateOutcome(p, codecs, p.publicOf(priv), t, now, Base64.URLEncoding, Base64.RawStdEncoding, claims);
  }

  /** An issued token both segments of which the validator as written decodes. */
  predicate DecodesAsWritten(p: Primitives, codecs: Codecs, priv: Key, claims: Claims) {
    |IssuedSignature(p, codecs, priv, claims)| % 3 == 0 && !UrlPayload(codecs, claims)
  }

  /** The validator a server runs: ValidateAccessToken as written, or with both
      segments decoded by the encoding that issued them. */
  function ValidateRevision(asWritten: bool, p: Primitives, codecs: Codecs, pub: Key, jwt: string, now: int): Validation {
    if asWritten then ValidateAccessTokenAsWritten(p, codecs, pub, jwt, now) else ValidateAccessToken(p, codecs, pub, jwt, now)
  }

  /** What each revision answers for a token the server issued, stated without the
      decoders: the corrected one accepts the claims until they expire; the one as
      written refuses a signature whose length is not a multiple of 3 as illegal
      base64, and reads a payload with URL symbols as the zero claims. */
  function IssuedVerdict(asWritten: bool, p: Primitives, codecs: Codecs, priv: Key, claims: Claims, now: int): Validation {
    if asWritten && |IssuedSignature(p, codecs, priv, claims)| % 3 != 0 then Rejected(IllegalBase64)
    else
      var c := if asWritten && UrlPayload(codecs, claims) then ZeroClaims else claims;
      if c.exp < now then Rejected(Expired) else Valid(c)
  }

  /** Both revisions of the validator on every token the server issues. */
  lemma ValidateIssued(asWritten: bool, p: Primitives, codecs: Codecs, priv: Key, claims: Claims, now: int)
    requires p.Sound() && codecs.Sound()
    ensures ValidateRevision(asWritten, p, codecs, p.publicOf(priv), GenerateAccessToken(p, codecs, priv, claims), now)
         == IssuedVerdict(asWritten, p, codecs, priv, claims, now)
  {
    if !asWritten {
      ValidateGenerated(p, codecs, priv, claims, now);
    } else if |IssuedSignature(p, codecs, priv, claims)| % 3 != 0 {
      AsWrittenRejectsUnpaddedSignature(p, codecs, priv, claims, now);
    } else if UrlPayload(codecs, claims) {
      AsWrittenPassesChecks(p, codecs, priv, claims);
      AsWrittenReadsZeroClaims(p, codecs, priv, claims);
      ValidateOutcome(p, codecs, p.publicOf(priv), GenerateAccessToken(p, codecs, priv, claims), now,
                      Base64.URLEncoding, Base64.RawStdEncoding, ZeroClaims);
    } else {
      AsWrittenAgreesOtherwise(p, codecs, priv, claims, now);
    }
  }

  /** A concrete payload text: the bytes "ab?" encode to "YWI_", which the unpadded
      standard decoder cuts short. */
  lemma UrlTextCutShort()
    ensures Base64.Encode(Base64.RawURLEncoding, [0x61, 0x62, 0x3F]) == "YWI_"
    ensures Base64.DecodeString(Base64.RawStdEncoding, "YWI_") == Base64.Decoded([], false)
  {
    Base64.StdDecodeOfUrl([0x61, 0x62, 0x3F]);
  }
}
