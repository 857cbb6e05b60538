/** The request guards of authMiddleware.go. Each is a decision from the request
    (its Authorization header values, its decoded body) and the stored users to
    either passing a value on to the next handler or answering with a status.
    A Go runtime panic (index out of range, nil dereference) is an outcome of its own. */
module Middleware {
  import opened Wrappers
  import opened GoStrings
  import Crypto
  import Base64
  import AuthUtils
  import Db

  /** What the server holds while handling requests: the primitives, the JSON codecs,
      the RSA public key, the current time, and which revision of ValidateAccessToken
      it runs: the one in authutils.go (asWritten) or the one with its decoding corrected. */
  datatype Env = Env(p: Crypto.Primitives, codecs: AuthUtils.Codecs, pub: Crypto.Key, now: int, asWritten: bool)
  {
    /** ValidateAccessToken of this server on a token text. */
    function Validation(t: string): AuthUtils.Validation {
      AuthUtils.ValidateRevision(asWritten, p, codecs, pub, t, now)
    }
  }

  datatype Response = Response(status: int, message: string)

  /** A guard's verdict: call the next handler with a value, answer, or panic. */
  datatype Step<T> = Pass(value: T) | Stop(resp: Response) | Panic

  // ---- TokenVerify ----

  /** Header.Get: the first value of the header, "" when it is absent. */
  function HeaderGet(values: seq<string>): (h: string)
    ensures |values| == 0 ==> h == ""
    ensures |values| > 0 ==> h == values[0]
  {
    if |values| == 0 then "" else values[0]
  }

  /** The trimmed header split on single spaces has exactly two pieces, the first "Bearer". */
  predicate WellFormedBearer(h: string) {
    var parts := Split(TrimSpace(h), " ");
    |parts| == 2 && parts[0] == "Bearer"
  }

  function BearerToken(h: string): string
    requires WellFormedBearer(h)
  {
    Split(TrimSpace(h), " ")[1]
  }

  /** TokenVerify's result: the claims, an error with the claims pointer Go returns
      beside it, or the panic of ValidateAccessToken on a token without three segments. */
  datatype Verified = Verified(claims: AuthUtils.Claims) | Failed(err: string, claimsPtr: Option<AuthUtils.Claims>) | VerifyPanic

  /** TokenVerify: "header missing" for an empty header, "invalid" unless it is
      "Bearer <token>", and otherwise the server's ValidateAccessToken result unchanged. */
  function TokenVerify(env: Env, authorization: seq<string>): (r: Verified)
    ensures (r == Failed("header missing", None)) <==> HeaderGet(authorization) == ""
    ensures (r == Failed("invalid", None)) <==> HeaderGet(authorization) != "" && !WellFormedBearer(HeaderGet(authorization))
    ensures WellFormedBearer(HeaderGet(authorization)) ==>
      var v := env.Validation(BearerToken(HeaderGet(authorization)));
      && (r.Verified? <==> v.Valid?)
      && (r.Verified? ==> r.claims == v.claims)
      && (r.VerifyPanic? <==> v.IndexPanic?)
      && (r.Failed? ==> r.err == AuthUtils.ErrorText(v.err) && r.claimsPtr == v.ClaimsPointer())
  {
    var h := HeaderGet(authorization);
    if h == "" then Failed("header missing", None)
    else if !WellFormedBearer(h) then Failed("invalid", None)
    else
      var v := env.Validation(BearerToken(h));
      match v
      case Valid(c) => Verified(c)
      case Rejected(e) => Failed(AuthUtils.ErrorText(e), v.ClaimsPointer())
      case IndexPanic => VerifyPanic
  }

  /** "Bearer <t>" carries t when t is a single word without leading or trailing space. */
  lemma BearerCarries(t: string)
    requires ' ' !in t && |t| > 0 && !IsSpace(t[|t| - 1])
    ensures WellFormedBearer("Bearer " + t) && BearerToken("Bearer " + t) == t
  {
    var h := "Bearer " + t;
    TrimSpaceKeeps(h);
    assert h == "Bearer" + [' '] + t;
    SplitAfter("Bearer", ' ', t);
    SplitNone(t, ' ');
  }

  /** Two spaces after "Bearer" leave an empty piece between them, so the header is "invalid". */
  lemma DoubleSpaceInvalid(env: Env, t: string)
    requires |t| > 0 && !IsSpace(t[|t| - 1])
    ensures TokenVerify(env, ["Bearer  " + t]) == Failed("invalid", None)
  {
    var h := "Bearer  " + t;
    TrimSpaceKeeps(h);
    assert h == "Bearer" + [' '] + ("" + [' '] + t);
    SplitAfter("Bearer", ' ', "" + [' '] + t);
    SplitAfter("", ' ', t);
    assert |Split(h, " ")| >= 3;
  }

  /** Every character is a base64url symbol or a dot. */
  predicate TokenText(t: string) {
    forall i :: 0 <= i < |t| ==> Base64.IsSymbol(Base64.Url, t[i]) || t[i] == '.'
  }

  lemma TokenTextJoin(x: string, y: string)
    requires TokenText(x) && TokenText(y)
    ensures TokenText(x + y)
  {
    forall i | 0 <= i < |x + y| ensures Base64.IsSymbol(Base64.Url, (x + y)[i]) || (x + y)[i] == '.' {
      if i < |x| {
        assert (x + y)[i] == x[i];
      } else {
        assert (x + y)[i] == y[i - |x|];
      }
    }
  }

  /** A token the server issued consists of base64url symbols and the two dots. */
  lemma IssuedTokenText(p: Crypto.Primitives, codecs: AuthUtils.Codecs, priv: Crypto.Key, claims: AuthUtils.Claims)
    ensures var t := AuthUtils.GenerateAccessToken(p, codecs, priv, claims);
      |t| > 0 && TokenText(t)
  {
    var h := AuthUtils.Base64Encode(codecs.header);
    var b := AuthUtils.Base64Encode(codecs.claims.marshal(claims));
    var s := AuthUtils.Base64Encode(p.signPKCS1v15(priv, AuthUtils.SigningInput(p, h, b)));
    assert AuthUtils.GenerateAccessToken(p, codecs, priv, claims) == h + "." + b + "." + s;
    assert TokenText(".");
    TokenTextJoin(h, ".");
    TokenTextJoin(h + ".", b);
    TokenTextJoin(h + "." + b, ".");
    TokenTextJoin(h + "." + b + ".", s);
  }

  /** "Bearer " followed by an issued token is a well-formed header carrying that token. */
  lemma IssuedTokenBearer(p: Crypto.Primitives, codecs: AuthUtils.Codecs, priv: Crypto.Key, claims: AuthUtils.Claims)
    ensures var t := AuthUtils.GenerateAccessToken(p, codecs, priv, claims);
      WellFormedBearer("Bearer " + t) && BearerToken("Bearer " + t) == t
  {
    IssuedTokenText(p, codecs, priv, claims);
    TokenTextBearer(AuthUtils.GenerateAccessToken(p, codecs, priv, claims));
  }

  lemma TokenTextBearer(t: string)
    requires |t| > 0 && TokenText(t)
    ensures WellFormedBearer("Bearer " + t) && BearerToken("Bearer " + t) == t
  {
    assert ' ' !in t by {
      forall i | 0 <= i < |t| ensures t[i] != ' ' {
        assert Base64.IsSymbol(Base64.Url, t[i]) || t[i] == '.';
      }
    }
    assert !IsSpace(t[|t| - 1]) by {
      assert Base64.IsSymbol(Base64.Url, t[|t| - 1]) || t[|t| - 1] == '.';
    }
    BearerCarries(t);
  }

  /** A request bearing a token the server issued passes TokenVerify with the token's
      claims until it expires, and fails "expired" with the zero claims after, when
      the server runs the corrected validator, or the one as written on a token it
      decodes. As written, a signature whose length is not a multiple of 3 fails as
      illegal base64, and a payload with URL symbols is read as the zero claims. */
  lemma IssuedTokenVerifies(env: Env, priv: Crypto.Key, claims: AuthUtils.Claims)
    requires env.p.Sound() && env.codecs.Sound() && env.pub == env.p.publicOf(priv)
    ensures var t := AuthUtils.GenerateAccessToken(env.p, env.codecs, priv, claims);
      (!env.asWritten || AuthUtils.DecodesAsWritten(env.p, env.codecs, priv, claims)) ==>
      TokenVerify(env, ["Bearer " + t]) == if claims.exp < env.now then Failed("expired", Some(AuthUtils.ZeroClaims)) else Verified(claims)
    ensures var t := AuthUtils.GenerateAccessToken(env.p, env.codecs, priv, claims);
      env.asWritten && |AuthUtils.IssuedSignature(env.p, env.codecs, priv, claims)| % 3 != 0 ==>
      TokenVerify(env, ["Bearer " + t]) == Failed("illegal base64 data at input byte", None)
    ensures var t := AuthUtils.GenerateAccessToken(env.p, env.codecs, priv, claims);
      env.asWritten && |AuthUtils.IssuedSignature(env.p, env.codecs, priv, claims)| % 3 == 0 && AuthUtils.UrlPayload(env.codecs, claims) ==>
      TokenVerify(env, ["Bearer " + t]) == if 0 < env.now then Failed("expired", Some(AuthUtils.ZeroClaims)) else Verified(AuthUtils.ZeroClaims)
  {
    var t := AuthUtils.GenerateAccessToken(env.p, env.codecs, priv, claims);
    IssuedTokenBearer(env.p, env.codecs, priv, claims);
    var v := env.Validation(t);
    assert v == AuthUtils.IssuedVerdict(env.asWritten, env.p, env.codecs, priv, claims, env.now) by {
      AuthUtils.ValidateIssued(env.asWritten, env.p, env.codecs, priv, claims, env.now);
    }
    BearerOutcome(env, t, v);
  }

  /** With a well-formed "Bearer <t>", TokenVerify answers as validation of t does. */
  lemma BearerOutcome(env: Env, t: string, v: AuthUtils.Validation)
    requires WellFormedBearer("Bearer " + t) && BearerToken("Bearer " + t) == t
    requires v == env.Validation(t)
    ensures v.Valid? ==> TokenVerify(env, ["Bearer " + t]) == Verified(v.claims)
    ensures v.Rejected? ==> TokenVerify(env, ["Bearer " + t]) == Failed(AuthUtils.ErrorText(v.err), v.ClaimsPointer())
    ensures v == AuthUtils.Rejected(AuthUtils.Expired) ==> TokenVerify(env, ["Bearer " + t]) == Failed("expired", Some(AuthUtils.ZeroClaims))
    ensures v == AuthUtils.Rejected(AuthUtils.IllegalBase64) ==> TokenVerify(env, ["Bearer " + t]) == Failed("illegal base64 data at input byte", None)
  {
    assert HeaderGet(["Bearer " + t]) == "Bearer " + t;
  }

  /** TokenRequired refuses an expired issued token with 401 "expired" when the
      server's validator decodes it, and with 500 and the base64 error when the
      validator as written cannot decode its signature. */
  lemma ExpiredTokenRefused(env: Env, priv: Crypto.Key, claims: AuthUtils.Claims)
    requires env.p.Sound() && env.codecs.Sound() && env.pub == env.p.publicOf(priv)
    requires claims.exp < env.now
    ensures var t := AuthUtils.GenerateAccessToken(env.p, env.codecs, priv, claims);
      (!env.asWritten || AuthUtils.DecodesAsWritten(env.p, env.codecs, priv, claims)) ==>
      TokenRequired(env, ["Bearer " + t]) == Stop(Response(401, "expired"))
    ensures var t := AuthUtils.GenerateAccessToken(env.p, env.codecs, priv, claims);
      env.asWritten && |AuthUtils.IssuedSignature(env.p, env.codecs, priv, claims)| % 3 != 0 ==>
      TokenRequired(env, ["Bearer " + t]) == Stop(Response(500, "illegal base64 data at input byte"))
  {
    IssuedTokenVerifies(env, priv, claims);
  }

  /** With the validator as written, TokenRequired answers an issued token whose
      signature length is not a multiple of 3 (a 256-byte RSA-2048 signature among
      them) with 500, whatever its expiry. */
  lemma UnpaddedSignatureRefused(env: Env, priv: Crypto.Key, claims: AuthUtils.Claims)
    requires env.p.Sound() && env.codecs.Sound() && env.pub == env.p.publicOf(priv)
    requires env.asWritten && |AuthUtils.IssuedSignature(env.p, env.codecs, priv, claims)| % 3 != 0
    ensures var t := AuthUtils.GenerateAccessToken(env.p, env.codecs, priv, claims);
      TokenRequired(env, ["Bearer " + t]) == Stop(Response(500, "illegal base64 data at input byte"))
  {
    IssuedTokenVerifies(env, priv, claims);
  }

  // ---- TokenRequired, StaffRequired, SuperUserVerify ----

  /** TokenRequired: the claims go on; a malformed header is 400, an expired token 401,
      and every other validation error (a bad signature among them) 500. */
  function TokenRequired(env: Env, authorization: seq<string>): (r: Step<AuthUtils.Claims>)
    ensures r.Pass? <==> TokenVerify(env, authorization).Verified?
    ensures r.Pass? ==> r.value == TokenVerify(env, authorization).claims
    ensures r.Panic? <==> TokenVerify(env, authorization).VerifyPanic?
    ensures r.Stop? ==> r.resp.message == TokenVerify(env, authorization).err
    ensures r.Stop? ==>
      r.resp.status == (if r.resp.message in {"header missing", "invalid"} then 400 else if r.resp.message == "expired" then 401 else 500)
  {
    match TokenVerify(env, authorization)
    case Verified(c) => Pass(c)
    case VerifyPanic => Panic
    case Failed(e, _) =>
      if e == "header missing" || e == "invalid" then Stop(Response(400, e))
      else if e == "expired" then Stop(Response(401, e))
      else Stop(Response(500, e))
  }

  /** An expired token is refused with 401 "expired"; a bad signature is a 500. */
  lemma TokenRequiredStatus(env: Env, t: string)
    requires ' ' !in t && |t| > 0 && !IsSpace(t[|t| - 1])
    ensures var v := env.Validation(t);
      && (v == AuthUtils.Rejected(AuthUtils.Expired) ==> TokenRequired(env, ["Bearer " + t]) == Stop(Response(401, "expired")))
      && (v == AuthUtils.Rejected(AuthUtils.VerificationError) ==> TokenRequired(env, ["Bearer " + t]) == Stop(Response(500, "crypto/rsa: verification error")))
  {
    BearerCarries(t);
  }

  function StaffRequired(claims: AuthUtils.Claims): (r: Step<AuthUtils.Claims>)
    ensures r.Pass? <==> claims.isStaff
    ensures r.Pass? ==> r.value == claims
    ensures r.Stop? ==> r.resp == Response(403, "Access Forbidden")
  {
    if !claims.isStaff then Stop(Response(403, "Access Forbidden")) else Pass(claims)
  }

  /** SuperUserVerify: the stored record, not the claims, must be an active superuser;
      the lookup error is discarded, so a username without exactly one row dereferences nil. */
  function SuperUserVerify(users: seq<Db.User>, claims: AuthUtils.Claims): (r: Step<AuthUtils.Claims>)
    ensures r.Panic? <==> Db.SelectUserAuth(users, claims.username).Failure?
    ensures r.Pass? <==> exists u :: u in users && u.username == claims.username && u.isActive && u.isSuperuser
                                   && Db.SelectUserAuth(users, claims.username) == Success(u)
    ensures r.Pass? ==> r.value == claims
    ensures r.Stop? ==> r.resp == Response(403, "Not Authorized")
  {
    match Db.SelectUserAuth(users, claims.username)
    case Failure(_) => Panic
    case Success(user) =>
      if !user.isActive || !user.isSuperuser then Stop(Response(403, "Not Authorized")) else Pass(claims)
  }

  // ---- validateUserCreds ----

  /** The request body of login and account deletion. */
  datatype Creds = Creds(username: string, password: string)

  /** validateUserCreds, with the decoded body as a parameter: an unknown user, an
      empty digest, a verification error and a wrong password are answered in that
      order, and a matching password hands the stored record on. */
  function ValidateUserCreds(p: Crypto.Primitives, users: seq<Db.User>, body: Result<Creds, string>): (r: Step<Db.User>)
    ensures body.Failure? ==> r == Stop(Response(422, body.error))
    ensures body.Success? && Db.SelectUserAuth(users, body.value.username).Failure? ==> r == Stop(Response(401, "Invalid Credentials"))
    ensures r.Pass? <==>
      && body.Success? && Db.SelectUserAuth(users, body.value.username).Success?
      && Db.SelectUserAuth(users, body.value.username).value.passwordHash != ""
      && AuthUtils.VerifyPassword(p, Db.SelectUserAuth(users, body.value.username).value.passwordHash, body.value.password)
         == AuthUtils.Checked(true)
    ensures r.Pass? ==> r.value == Db.SelectUserAuth(users, body.value.username).value
    ensures body.Success? && Db.SelectUserAuth(users, body.value.username).Success?
              && Db.SelectUserAuth(users, body.value.username).value.passwordHash == ""
            ==> r == Stop(Response(409, "Password Change Needed"))
    ensures body.Success? && Db.SelectUserAuth(users, body.value.username).Success?
              && Db.SelectUserAuth(users, body.value.username).value.passwordHash != "" ==>
      var verdict := AuthUtils.VerifyPassword(p, Db.SelectUserAuth(users, body.value.username).value.passwordHash, body.value.password);
      && (verdict.Errored? ==> r == Stop(Response(500, "Credential Validation Error")))
      && (verdict.Panicked? ==> r == Panic)
      && (verdict == AuthUtils.Checked(false) ==> r == Stop(Response(401, "Invalid Credentials")))
  {
    match body
    case Failure(e) => Stop(Response(422, e))
    case Success(u) =>
      match Db.SelectUserAuth(users, u.username)
      case Failure(_) => Stop(Response(401, "Invalid Credentials"))
      case Success(user) =>
        if user.passwordHash == "" then Stop(Response(409, "Password Change Needed"))
        else
          match AuthUtils.VerifyPassword(p, user.passwordHash, u.password)
          case Errored(_) => Stop(Response(500, "Credential Validation Error"))
          case Panicked => Panic
          case Checked(ok) => if !ok then Stop(Response(401, "Invalid Credentials")) else Pass(user)
  }

  /** A user whose stored digest was made from their password logs in with it. */
  lemma CredentialsOfStoredDigest(p: Crypto.Primitives, users: seq<Db.User>, user: Db.User, salt: AuthUtils.Random16, password: string)
    requires p.Sound()
    requires Db.SelectUserAuth(users, user.username) == Success(user)
    requires user.passwordHash == AuthUtils.GetPasswordHash(p, Success(salt), password)
    ensures ValidateUserCreds(p, users, Success(Creds(user.username, password))) == Pass(user)
  {
    AuthUtils.VerifyGetPasswordHash(p, salt, password);
    AuthUtils.PasswordHashLayout(p, salt, password);
  }

  /** Every stored record with its active flag cleared. */
  function Deactivated(users: seq<Db.User>): (r: seq<Db.User>)
    ensures |r| == |users|
    ensures forall i :: 0 <= i < |users| ==> r[i] == users[i].(isActive := false)
    decreases |users|
  {
    if |users| == 0 then [] else [users[0].(isActive := false)] + Deactivated(users[1..])
  }

  lemma {:induction false} DeactivatedRows(users: seq<Db.User>, name: string)
    ensures Db.WithUsername(Deactivated(users), name) == Deactivated(Db.WithUsername(users, name))
    decreases |users|
  {
    if |users| > 0 {
      DeactivatedRows(users[1..], name);
      var head := if users[0].username == name then [users[0]] else [];
      DeactivatedAppend(head, Db.WithUsername(users[1..], name));
    }
  }

  lemma {:induction false} DeactivatedAppend(a: seq<Db.User>, b: seq<Db.User>)
    ensures Deactivated(a + b) == Deactivated(a) + Deactivated(b)
    decreases |a|
  {
    if |a| > 0 {
      assert (a + b)[1..] == a[1..] + b;
      DeactivatedAppend(a[1..], b);
    } else {
      assert a + b == b;
    }
  }

  /** validateUserCreds never reads the active flag: deactivating every account changes
      no decision, so a deactivated user still passes it (newAccess refuses them later). */
  lemma CredsIgnoreActiveFlag(p: Crypto.Primitives, users: seq<Db.User>, body: Result<Creds, string>)
    ensures ValidateUserCreds(p, Deactivated(users), body).Pass? == ValidateUserCreds(p, users, body).Pass?
    ensures ValidateUserCreds(p, Deactivated(users), body).Stop? == ValidateUserCreds(p, users, body).Stop?
    ensures ValidateUserCreds(p, Deactivated(users), body).Stop? ==>
      ValidateUserCreds(p, Deactivated(users), body).resp == ValidateUserCreds(p, users, body).resp
  {
    if body.Success? {
      var name := body.value.username;
      SelectDeactivated(users, name);
      var b := Db.SelectUserAuth(users, name);
      if b.Success? {
        var hash := b.value.passwordHash;
        assert Db.SelectUserAuth(Deactivated(users), name).value.passwordHash == hash;
      }
    }
  }

  /** Deactivating every account finds the same row, with the flag cleared. */
  lemma SelectDeactivated(users: seq<Db.User>, name: string)
    ensures var a, b := Db.SelectUserAuth(Deactivated(users), name), Db.SelectUserAuth(users, name);
      && (a.Success? <==> b.Success?)
      && (b.Success? ==> a.value == b.value.(isActive := false))
  {
    DeactivatedRows(users, name);
    var rows := Db.WithUsername(users, name);
    assert |Deactivated(rows)| == |rows|;
    if |rows| == 1 {
      assert Deactivated(rows)[0] == rows[0].(isActive := false);
    }
  }
}
