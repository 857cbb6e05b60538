/** authHandlers.go: an earlier header parser, tokenVerify, which splits the trimmed
    Authorization value on ": " rather than on a space, and a middleware template
    that never calls the handler it wraps. Neither is mounted on a route. */
module LegacyHandlers {
  import opened Wrappers
  import opened GoStrings
  import Base64
  import AuthUtils
  import opened Middleware

  const HeaderSeparator := ": "

  /** The pieces tokenVerify reads the first Authorization value as. */
  function HeaderPieces(value: string): (parts: seq<string>)
    ensures |parts| >= 1
  {
    Split(TrimSpace(value), HeaderSeparator)
  }

  /** tokenVerify, with the values of the Authorization header as `values`: indexing a
      missing header panics; a first piece other than "Bearer" is 401 "Invalid
      Authorization Method"; a value without a second piece panics; otherwise the
      second piece is validated, its error answered with 401 and its claims passed
      on. */
  function TokenVerifyLegacy(env: Env, values: seq<string>): (r: Step<AuthUtils.Claims>)
    ensures |values| == 0 ==> r == Panic
    ensures |values| > 0 ==>
      (r == Stop(Response(401, "Invalid Authorization Method")) <==> HeaderPieces(values[0])[0] != "Bearer")
    ensures |values| > 0 && HeaderPieces(values[0])[0] == "Bearer" && |HeaderPieces(values[0])| < 2 ==> r == Panic
    ensures r.Pass? ==>
      && |values| > 0 && |HeaderPieces(values[0])| >= 2 && HeaderPieces(values[0])[0] == "Bearer"
      && env.Validation(HeaderPieces(values[0])[1]) == AuthUtils.Valid(r.value)
    ensures r.Stop? && r.resp.message != "Invalid Authorization Method" ==>
      && |values| > 0 && |HeaderPieces(values[0])| >= 2
      && var v := env.Validation(HeaderPieces(values[0])[1]);
         v.Rejected? && r.resp == Response(401, AuthUtils.ErrorText(v.err))
    ensures |values| > 0 && HeaderPieces(values[0])[0] == "Bearer" && |HeaderPieces(values[0])| >= 2 ==>
      var v := env.Validation(HeaderPieces(values[0])[1]);
      && (v.Valid? ==> r == Pass(v.claims))
      && (v.Rejected? ==> r == Stop(Response(401, AuthUtils.ErrorText(v.err))))
      && (v.IndexPanic? ==> r == Panic)
  {
    if |values| == 0 then Panic
    else
      var parts := HeaderPieces(values[0]);
      if parts[0] != "Bearer" then Stop(Response(401, "Invalid Authorization Method"))
      else if |parts| < 2 then Panic
      else
        var v := env.Validation(parts[1]);
        match v
        case Valid(claims) => Pass(claims)
        case Rejected(e) => Stop(Response(401, AuthUtils.ErrorText(e)))
        case IndexPanic => Panic
  }

  /** The standard "Bearer <token>" header is always refused: the first piece runs
      past the space. */
  lemma StandardHeaderRefused(env: Env, t: string)
    requires |t| > 0 && !IsSpace(t[|t| - 1])
    ensures TokenVerifyLegacy(env, ["Bearer " + t]) == Stop(Response(401, "Invalid Authorization Method"))
  {
    var h := "Bearer " + t;
    TrimSpaceKeeps(h);
    forall j | 0 <= j < 7 ensures !OccursAt(h, HeaderSeparator, j) {
      assert h[j] != ':';
    }
    FirstPieceReaches(h, HeaderSeparator, 7);
  }

  /** A header of just "Bearer" has no second piece, and indexing it panics. */
  lemma BareBearerPanics(env: Env)
    ensures TokenVerifyLegacy(env, ["Bearer"]) == Panic
  {
    TrimSpaceKeeps("Bearer");
    assert Index("Bearer", HeaderSeparator) == -1 by {
      forall j | 0 <= j < 6 ensures !OccursAt("Bearer", HeaderSeparator, j) {
        assert "Bearer"[j] != ':';
      }
    }
  }

  /** "Bearer: <token>" splits into "Bearer" and the token when the token holds no
      colon. */
  lemma ColonHeaderPieces(t: string)
    requires ':' !in t && |t| > 0 && !IsSpace(t[|t| - 1])
    ensures HeaderPieces("Bearer: " + t) == ["Bearer", t]
  {
    var h := "Bearer: " + t;
    TrimSpaceKeeps(h);
    assert OccursAt(h, HeaderSeparator, 6);
    forall j | 0 <= j < 6 ensures !OccursAt(h, HeaderSeparator, j) {
      assert h[j] != ':';
    }
    assert Index(h, HeaderSeparator) == 6;
    assert h[8..] == t;
    forall j | 0 <= j < |t| ensures !OccursAt(t, HeaderSeparator, j) {
      assert t[j] in t;
    }
    assert Index(t, HeaderSeparator) == -1;
    assert Split(t, HeaderSeparator) == [t];
    assert h[..6] == "Bearer";
    assert Split(h, HeaderSeparator) == [h[..6]] + Split(h[8..], HeaderSeparator);
  }

  /** An issued token holds no colon and does not end in white space. */
  lemma IssuedTokenColonFree(p: Crypto.Primitives, codecs: AuthUtils.Codecs, priv: Crypto.Key, claims: AuthUtils.Claims)
    ensures var t := AuthUtils.GenerateAccessToken(p, codecs, priv, claims);
      ':' !in t && |t| > 0 && !IsSpace(t[|t| - 1])
  {
    IssuedTokenText(p, codecs, priv, claims);
    TokenTextColonFree(AuthUtils.GenerateAccessToken(p, codecs, priv, claims));
  }

  lemma TokenTextColonFree(t: string)
    requires |t| > 0 && TokenText(t)
    ensures ':' !in t && !IsSpace(t[|t| - 1])
  {
    forall i | 0 <= i < |t| ensures t[i] != ':' && !IsSpace(t[i]) {
      assert Base64.IsSymbol(Base64.Url, t[i]) || t[i] == '.';
    }
  }

  /** Only the "Bearer: <token>" form gets through: an issued token presented that way
      is passed on until it expires, and refused with 401 "expired" after, when the
      server's validator decodes it; the validator as written refuses a signature
      whose length is not a multiple of 3 with 401 and the base64 error. */
  lemma ColonHeaderAccepted(env: Env, priv: Crypto.Key, claims: AuthUtils.Claims)
    requires env.p.Sound() && env.codecs.Sound() && env.pub == env.p.publicOf(priv)
    ensures var t := AuthUtils.GenerateAccessToken(env.p, env.codecs, priv, claims);
      (!env.asWritten || AuthUtils.DecodesAsWritten(env.p, env.codecs, priv, claims)) ==>
      TokenVerifyLegacy(env, ["Bearer: " + t]) ==
        if claims.exp < env.now then Stop(Response(401, "expired")) else Pass(claims)
    ensures var t := AuthUtils.GenerateAccessToken(env.p, env.codecs, priv, claims);
      env.asWritten && |AuthUtils.IssuedSignature(env.p, env.codecs, priv, claims)| % 3 != 0 ==>
      TokenVerifyLegacy(env, ["Bearer: " + t]) == Stop(Response(401, "illegal base64 data at input byte"))
  {
    var t := AuthUtils.GenerateAccessToken(env.p, env.codecs, priv, claims);
    IssuedTokenColonFree(env.p, env.codecs, priv, claims);
    ColonHeaderPieces(t);
    var v := env.Validation(t);
    assert v == AuthUtils.IssuedVerdict(env.asWritten, env.p, env.codecs, priv, claims, env.now) by {
      AuthUtils.ValidateIssued(env.asWritten, env.p, env.codecs, priv, claims, env.now);
    }
    ColonHeaderOutcome(env, t, v);
  }

  /** With the pieces "Bearer" and the token, tokenVerify answers as validation does. */
  lemma ColonHeaderOutcome(env: Env, t: string, v: AuthUtils.Validation)
    requires HeaderPieces("Bearer: " + t) == ["Bearer", t]
    requires v == env.Validation(t)
    ensures v.Valid? ==> TokenVerifyLegacy(env, ["Bearer: " + t]) == Pass(v.claims)
    ensures v.Rejected? ==> TokenVerifyLegacy(env, ["Bearer: " + t]) == Stop(Response(401, AuthUtils.ErrorText(v.err)))
    ensures v == AuthUtils.Rejected(AuthUtils.Expired) ==> TokenVerifyLegacy(env, ["Bearer: " + t]) == Stop(Response(401, "expired"))
    ensures v == AuthUtils.Rejected(AuthUtils.IllegalBase64) ==>
      TokenVerifyLegacy(env, ["Bearer: " + t]) == Stop(Response(401, "illegal base64 data at input byte"))
  {
  }

  /** template: the wrapped handler's result `next` is never reached; the wrapper
      writes nothing, which net/http sends as an empty 200. */
  function Template<T>(next: Step<T>): (r: Step<T>)
    ensures !r.Pass? && r != Panic
  {
    Stop(Response(200, ""))
  }
}
