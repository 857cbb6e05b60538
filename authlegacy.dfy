/** The superseded revision of package utils (auth.go). GenerateCryptoString,
    hasher and GetPasswordHash there are the same code as in authutils.go and are
    the members of module AuthUtils. What differs is modelled here: VerifyPassword
    compares raw bytes in a loop, and access tokens carry an HMAC-SHA256 tag, no
    expiry, and are decoded with the standard alphabet.

    VerifyPassword works on Go slices that share one backing array, so it is
    modelled imperatively: a slice is an array with a length, its capacity the
    array's length, and append writes in place whenever the capacity allows. */
module LegacyAuth {
  import opened Wrappers
  import opened GoStrings
  import opened Crypto
  import Base64
  import AuthUtils

  // ---- Slices ----

  /** A Go []byte starting at index 0 of its backing array; its capacity is arr.Length. */
  datatype Slice = Slice(arr: array<byte>, len: nat)
  {
    ghost predicate Valid() { len <= arr.Length }

    function Contents(): seq<byte>
      reads arr
      requires Valid()
    {
      arr[..len]
    }
  }

  /** append(s, extra...): in place when the capacity suffices, otherwise into a new array. */
  method Append(s: Slice, extra: seq<byte>) returns (r: Slice)
    requires s.Valid()
    modifies s.arr
    ensures r.Valid() && r.Contents() == old(s.Contents()) + extra
    ensures s.len + |extra| <= s.arr.Length ==> r.arr == s.arr && s.arr[r.len..] == old(s.arr[r.len..])
    ensures s.len + |extra| > s.arr.Length ==> fresh(r.arr) && unchanged(s.arr)
  {
    var n := s.len + |extra|;
    if n <= s.arr.Length {
      var i := 0;
      while i < |extra|
        invariant 0 <= i <= |extra|
        invariant s.arr[..s.len] == old(s.arr[..s.len])
        invariant s.arr[s.len..s.len + i] == extra[..i]
        invariant s.arr[n..] == old(s.arr[n..])
      {
        s.arr[s.len + i] := extra[i];
        i := i + 1;
      }
      r := Slice(s.arr, n);
      assert r.Contents() == s.arr[..s.len] + s.arr[s.len..n];
    } else {
      var grown := new byte[n](j requires 0 <= j < n reads s.arr =>
        if j < s.len then s.arr[j] else extra[j - s.len]);
      r := Slice(grown, n);
      assert r.Contents() == old(s.Contents()) + extra;
    }
  }

  /** The loop of VerifyPassword: lengths already agree; the first differing index decides. */
  method BytesEqual(x: Slice, y: Slice) returns (eq: bool)
    requires x.Valid() && y.Valid() && x.len == y.len
    ensures eq <==> x.Contents() == y.Contents()
  {
    var i := 0;
    while i < x.len
      invariant 0 <= i <= x.len
      invariant x.arr[..i] == y.arr[..i]
    {
      if x.arr[i] != y.arr[i] {
        assert x.Contents()[i] != y.Contents()[i];
        return false;
      }
      i := i + 1;
    }
    assert x.Contents() == x.arr[..i];
    return true;
  }

  /** The decoding buffer of Encoding.DecodeString, as a fresh array. */
  method DecodeIntoBuffer(stored: string) returns (byteHash: Slice)
    requires Base64.DecodeString(Base64.StdEncoding, stored).ok
    ensures fresh(byteHash.arr) && byteHash.Valid()
    ensures byteHash.arr[..] == AuthUtils.DecodeBuffer(Base64.DecodeString(Base64.StdEncoding, stored).data,
                                                       Base64.DecodedLen(Base64.StdEncoding, |stored|))
    ensures byteHash.Contents() == Base64.DecodeString(Base64.StdEncoding, stored).data
  {
    var buf := AuthUtils.DecodeBuffer(Base64.DecodeString(Base64.StdEncoding, stored).data,
                                      Base64.DecodedLen(Base64.StdEncoding, |stored|));
    var arr := new byte[|buf|](j requires 0 <= j < |buf| => buf[j]);
    assert arr[..] == buf;
    byteHash := Slice(arr, |Base64.DecodeString(Base64.StdEncoding, stored).data|);
  }

  /** The first 16 bytes of the decoding buffer: `byteHash[:16]`, which may reach
      past the decoded bytes into the buffer's zeroed capacity. */
  function BufferSalt(stored: string): (salt: seq<byte>)
    requires |stored| >= 24
    ensures |salt| == AuthUtils.SaltLen
  {
    AuthUtils.SaltCapacity(|stored|);
    AuthUtils.DecodeBuffer(Base64.DecodeString(Base64.StdEncoding, stored).data,
                           Base64.DecodedLen(Base64.StdEncoding, |stored|))[..AuthUtils.SaltLen]
  }

  /** The key scrypt derives for `password` from that salt. */
  function BufferKey(p: Primitives, stored: string, password: string): Result<seq<byte>, string>
    requires |stored| >= 24
  {
    p.scryptKey(Utf8(password), BufferSalt(stored), ScryptN, ScryptR, ScryptP, ScryptKeyLen)
  }

  /** VerifyPassword as written. `salt := byteHash[:16]` keeps the capacity of the
      decoding buffer, so when that capacity holds salt and key, hasher's append
      writes the fresh key over the stored one and the loop compares the buffer with
      itself; when it does not, the stored bytes are too short to match. Either way
      the verdict depends only on the length of the stored digest, never on the
      password: every password is accepted for a stored 48-byte digest. */
  method VerifyPasswordAsWritten(p: Primitives, stored: string, password: string) returns (v: AuthUtils.Verdict)
    ensures !Base64.DecodeString(Base64.StdEncoding, stored).ok ==> v.Errored?
    ensures v.Panicked? <==> Base64.DecodeString(Base64.StdEncoding, stored).ok && |stored| < 24
    ensures var d := Base64.DecodeString(Base64.StdEncoding, stored);
      d.ok && |stored| >= 24 ==>
        match BufferKey(p, stored, password)
        case Failure(e) => v == AuthUtils.Errored(e)
        case Success(key) => v == AuthUtils.Checked(|d.data| == AuthUtils.SaltLen + |key|)
    ensures var d := Base64.DecodeString(Base64.StdEncoding, stored);
      p.Sound() && d.ok && |stored| >= 24 ==> v == AuthUtils.Checked(|d.data| == AuthUtils.DigestLen)
  {
    var d := Base64.DecodeString(Base64.StdEncoding, stored);
    AuthUtils.SaltCapacity(|stored|);
    Base64.DecodedFits(Base64.StdEncoding, stored);
    if !d.ok {
      return AuthUtils.Errored("illegal base64 data");
    }
    var cap := Base64.DecodedLen(Base64.StdEncoding, |stored|);
    if cap < AuthUtils.SaltLen {
      return AuthUtils.Panicked;
    }
    var byteHash := DecodeIntoBuffer(stored);
    var salt := Slice(byteHash.arr, AuthUtils.SaltLen);
    var derived := p.scryptKey(Utf8(password), salt.Contents(), ScryptN, ScryptR, ScryptP, ScryptKeyLen);
    if derived.Failure? {
      return AuthUtils.Errored(derived.error);
    }
    var key := derived.value;
    var pwHashed := Append(salt, key);
    if pwHashed.len != byteHash.len {
      return AuthUtils.Checked(false);
    }
    assert cap >= AuthUtils.SaltLen + |key|;
    assert pwHashed.arr == byteHash.arr;
    var eq := BytesEqual(pwHashed, byteHash);
    v := AuthUtils.Checked(eq);
  }

  /** VerifyPassword with the salt copied out of the decoding buffer, so that hasher's
      append cannot touch the stored digest: a password is accepted exactly when the
      stored bytes are the salt followed by the key derived from it. */
  method VerifyPassword(p: Primitives, stored: string, password: string) returns (v: AuthUtils.Verdict)
    ensures !Base64.DecodeString(Base64.StdEncoding, stored).ok ==> v.Errored?
    ensures v.Panicked? <==> Base64.DecodeString(Base64.StdEncoding, stored).ok && |stored| < 24
    ensures var d := Base64.DecodeString(Base64.StdEncoding, stored);
      d.ok && |stored| >= 24 ==>
        match BufferKey(p, stored, password)
        case Failure(e) => v == AuthUtils.Errored(e)
        case Success(key) => v == AuthUtils.Checked(d.data == BufferSalt(stored) + key)
  {
    var d := Base64.DecodeString(Base64.StdEncoding, stored);
    AuthUtils.SaltCapacity(|stored|);
    Base64.DecodedFits(Base64.StdEncoding, stored);
    if !d.ok {
      return AuthUtils.Errored("illegal base64 data");
    }
    var cap := Base64.DecodedLen(Base64.StdEncoding, |stored|);
    if cap < AuthUtils.SaltLen {
      return AuthUtils.Panicked;
    }
    var byteHash := DecodeIntoBuffer(stored);
    var saltArr := new byte[AuthUtils.SaltLen](j requires 0 <= j < AuthUtils.SaltLen reads byteHash.arr => byteHash.arr[j]);
    var salt := Slice(saltArr, AuthUtils.SaltLen);
    assert salt.Contents() == byteHash.arr[..AuthUtils.SaltLen];
    var derived := p.scryptKey(Utf8(password), salt.Contents(), ScryptN, ScryptR, ScryptP, ScryptKeyLen);
    if derived.Failure? {
      return AuthUtils.Errored(derived.error);
    }
    var key := derived.value;
    ghost var before := byteHash.arr[..];
    var pwHashed := Append(salt, key);
    assert byteHash.arr[..] == before;
    assert pwHashed.Contents() == BufferSalt(stored) + key;
    if pwHashed.len != byteHash.len {
      return AuthUtils.Checked(false);
    }
    var eq := BytesEqual(pwHashed, byteHash);
    v := AuthUtils.Checked(eq);
  }

  /** Round trip for the corrected loop: a password verifies against the digest made
      from it, and against that digest every password whose derived key differs fails. */
  lemma StoredDigestDecides(p: Primitives, salt: AuthUtils.Random16, password: string, attempt: string)
    requires p.Sound()
    ensures var stored := AuthUtils.GetPasswordHash(p, Success(salt), password);
      && Base64.DecodeString(Base64.StdEncoding, stored).ok && |stored| >= 24
      && BufferKey(p, stored, attempt).Success?
      && var d := Base64.DecodeString(Base64.StdEncoding, stored).data;
         ((d == BufferSalt(stored) + BufferKey(p, stored, attempt).value)
           <==> (BufferKey(p, stored, attempt) == BufferKey(p, stored, password)))
  {
    var stored := AuthUtils.GetPasswordHash(p, Success(salt), password);
    AuthUtils.PasswordHashLayout(p, salt, password);
    AuthUtils.DigestTextLengths();
    var d := Base64.DecodeString(Base64.StdEncoding, stored).data;
    assert AuthUtils.DecodeBuffer(d, Base64.DecodedLen(Base64.StdEncoding, |stored|)) == d;
    assert d == d[..AuthUtils.SaltLen] + d[AuthUtils.SaltLen..];
  }

  // ---- HMAC access tokens ----

  /** TokenClaims of this revision: an issued-at time instead of an expiry. */
  datatype Claims = Claims(userId: int, username: string, isStaff: bool, iat: int)

  const ZeroClaims := Claims(0, "", false, 0)

  datatype Codecs = Codecs(header: seq<byte>, claims: Json<Claims>, headerAlg: seq<byte> -> string)
  {
    ghost predicate Sound() {
      claims.Sound(ZeroClaims) && headerAlg(header) == AuthUtils.PinnedAlg
    }
  }

  /** The tag over "seg0.seg1": HMAC-SHA256 keyed with SECRET. */
  function Tag(p: Primitives, secret: Key, seg0: string, seg1: string): seq<byte> {
    p.hmacSha256(secret, Utf8(seg0 + "." + seg1))
  }

  /** GenerateAccessToken of this revision: "h.p." followed by base64Encode of the tag. */
  function GenerateAccessToken(p: Primitives, codecs: Codecs, secret: Key, claims: Claims): (t: string)
    ensures var h, b := AuthUtils.Base64Encode(codecs.header), AuthUtils.Base64Encode(codecs.claims.marshal(claims));
      Split(t, ".") == [h, b, AuthUtils.Base64Encode(Tag(p, secret, h, b))]
  {
    var headerEnc := AuthUtils.Base64Encode(codecs.header);
    var payloadEnc := AuthUtils.Base64Encode(codecs.claims.marshal(claims));
    var signer := AuthUtils.Base64Encode(Tag(p, secret, headerEnc, payloadEnc));
    SplitThree(headerEnc, payloadEnc, signer, '.');
    headerEnc + "." + payloadEnc + "." + signer
  }

  datatype TokenError = SignatureMismatch | InvalidAlgorithm

  function ErrorText(e: TokenError): string {
    match e
    case SignatureMismatch => "Signature does not match"
    case InvalidAlgorithm => "Invalid Algorithm"
  }

  datatype Validation = Valid(claims: Claims) | Rejected(err: TokenError) | IndexPanic

  /** The validation of this revision with the decoder as a parameter: tag (decode
      errors ignored, hmac.Equal), then algorithm pin; there is no expiry check. */
  function Validate(p: Primitives, codecs: Codecs, secret: Key, jwt: string, dec: Base64.Encoding): (r: Validation)
    ensures r.IndexPanic? <==> |Split(jwt, ".")| < 3
    ensures var token := Split(jwt, ".");
      r.Valid? <==>
        && |token| >= 3
        && Base64.DecodeString(dec, token[2]).data == Tag(p, secret, token[0], token[1])
        && codecs.headerAlg(Base64.DecodeString(dec, token[0]).data) == AuthUtils.PinnedAlg
    ensures |Split(jwt, ".")| >= 3 ==>
      var token := Split(jwt, ".");
      && (Base64.DecodeString(dec, token[2]).data != Tag(p, secret, token[0], token[1]) ==> r == Rejected(SignatureMismatch))
      && (Base64.DecodeString(dec, token[2]).data == Tag(p, secret, token[0], token[1]) && codecs.headerAlg(Base64.DecodeString(dec, token[0]).data) != AuthUtils.PinnedAlg
          ==> r == Rejected(InvalidAlgorithm))
    ensures r.Valid? ==> r.claims == codecs.claims.unmarshal(Base64.DecodeString(dec, Split(jwt, ".")[1]).data)
  {
    var token := Split(jwt, ".");
    if |token| < 3 then IndexPanic
    else
      var signer := Base64.DecodeString(dec, token[2]).data;
      if Tag(p, secret, token[0], token[1]) != signer then Rejected(SignatureMismatch)
      else if codecs.headerAlg(Base64.DecodeString(dec, token[0]).data) != AuthUtils.PinnedAlg then Rejected(InvalidAlgorithm)
      else Valid(codecs.claims.unmarshal(Base64.DecodeString(dec, token[1]).data))
  }

  /** ValidateAccessToken as written: every segment decoded with RawStdEncoding. */
  function ValidateAccessTokenAsWritten(p: Primitives, codecs: Codecs, secret: Key, jwt: string): Validation {
    Validate(p, codecs, secret, jwt, Base64.RawStdEncoding)
  }

  /** ValidateAccessToken with the segments decoded by the encoding that issued them. */
  function ValidateAccessToken(p: Primitives, codecs: Codecs, secret: Key, jwt: string): Validation {
    Validate(p, codecs, secret, jwt, Base64.RawURLEncoding)
  }

  /** Round trip of the corrected validator: a token it issued is accepted with its
      claims, whatever the time, since nothing expires. */
  lemma ValidateGenerated(p: Primitives, codecs: Codecs, secret: Key, claims: Claims)
    requires codecs.Sound()
    ensures ValidateAccessToken(p, codecs, secret, GenerateAccessToken(p, codecs, secret, claims)) == Valid(claims)
  {
    var parts := Split(GenerateAccessToken(p, codecs, secret, claims), ".");
    Base64.DecodeEncode(Base64.RawURLEncoding, codecs.header);
    Base64.DecodeEncode(Base64.RawURLEncoding, codecs.claims.marshal(claims));
    Base64.DecodeEncode(Base64.RawURLEncoding, Tag(p, secret, parts[0], parts[1]));
  }

  /** The tag this revision attaches to a token for `claims`. */
  function IssuedTag(p: Primitives, codecs: Codecs, secret: Key, claims: Claims): seq<byte> {
    var parts := Split(GenerateAccessToken(p, codecs, secret, claims), ".");
    Tag(p, secret, parts[0], parts[1])
  }

  /** Finding: the validator as written rejects its own token as "Signature does not
      match" whenever the tag's base64url text holds '-' or '_'. */
  lemma AsWrittenRejectsUrlTag(p: Primitives, codecs: Codecs, secret: Key, claims: Claims)
    requires var text := Base64.Encode(Base64.RawURLEncoding, IssuedTag(p, codecs, secret, claims));
      '-' in text || '_' in text
    ensures ValidateAccessTokenAsWritten(p, codecs, secret, GenerateAccessToken(p, codecs, secret, claims))
         == Rejected(SignatureMismatch)
  {
    Base64.StdDecodeOfUrl(IssuedTag(p, codecs, secret, claims));
  }

  /** Finding, second half: with a tag it can read, the validator as written accepts
      the token but, when the payload text holds '-' or '_', returns the zero claims
      (user id 0) instead of the token's own. */
  lemma AsWrittenZeroesUrlPayload(p: Primitives, codecs: Codecs, secret: Key, claims: Claims)
    requires codecs.Sound()
    requires var text := Base64.Encode(Base64.RawURLEncoding, IssuedTag(p, codecs, secret, claims));
      '-' !in text && '_' !in text
    requires var text := Base64.Encode(Base64.RawURLEncoding, codecs.header); '-' !in text && '_' !in text
    requires var text := Base64.Encode(Base64.RawURLEncoding, codecs.claims.marshal(claims)); '-' in text || '_' in text
    ensures ValidateAccessTokenAsWritten(p, codecs, secret, GenerateAccessToken(p, codecs, secret, claims))
         == Valid(ZeroClaims)
  {
    var parts := Split(GenerateAccessToken(p, codecs, secret, claims), ".");
    Base64.StdDecodeOfUrl(IssuedTag(p, codecs, secret, claims));
    Base64.StdDecodeOfUrl(codecs.header);
    var payload := codecs.claims.marshal(claims);
    Base64.StdDecodeOfUrl(payload);
    var d := Base64.DecodeString(Base64.RawStdEncoding, parts[1]);
    assert d.data == payload[..|d.data|] && |d.data| < |payload|;
  }
}
