/** The handlers of apiHandlers.go that make up the session protocol (login, refresh,
    logout, password reset) and the checks of the user-profile handlers. The
    protocol handlers are step sequences over the tables of a Db.Store; the
    request body each decodes is a parameter (its decoding error included), and so
    are the random bytes crypto/rand yields. */
module Handlers {
  import opened Wrappers
  import opened GoStrings
  import Crypto
  import AuthUtils
  import opened Db
  import opened Middleware

  /** Access tokens live fifteen minutes. */
  const AccessLifetime := 15 * 60

  datatype Tokens = Tokens(access: string, refresh: string)

  /** What a handler writes: a status with a message, a fresh token pair (201), a
      reset token (201), or a panic of the handler goroutine. */
  datatype Outcome = Answer(status: int, message: string) | Issued(tokens: Tokens) | ResetIssued(token: string) | Crash

  /** The refresh or reset token: GenerateCryptoString's text, its error discarded. */
  function NewTokenText(rnd: Result<AuthUtils.Random16, string>): (t: string)
    ensures rnd.Success? ==> |t| == 32
    ensures rnd.Failure? ==> t == ""
  {
    AuthUtils.GenerateCryptoString(rnd).GetOr("")
  }

  /** The claims newAccess signs for a user. */
  function AccessClaims(user: User, now: int): (c: AuthUtils.Claims)
    ensures c.userId == user.id && c.username == user.username && c.isStaff == user.isStaff
    ensures c.exp == now + AccessLifetime
  {
    AuthUtils.Claims(user.id, user.username, user.isStaff, now + AccessLifetime)
  }

  /** The access token newAccess hands out: its claims verify for fifteen minutes and
      are refused as "expired" afterwards. */
  lemma AccessTokenLifetime(env: Env, priv: Crypto.Key, user: User, issuedAt: int)
    requires env.p.Sound() && env.codecs.Sound() && env.pub == env.p.publicOf(priv)
    ensures var t := AuthUtils.GenerateAccessToken(env.p, env.codecs, priv, AccessClaims(user, issuedAt));
      (!env.asWritten || AuthUtils.DecodesAsWritten(env.p, env.codecs, priv, AccessClaims(user, issuedAt))) ==>
      TokenVerify(env, ["Bearer " + t]) ==
        if env.now <= issuedAt + AccessLifetime then Verified(AccessClaims(user, issuedAt))
        else Failed("expired", Some(AuthUtils.ZeroClaims))
    ensures var t := AuthUtils.GenerateAccessToken(env.p, env.codecs, priv, AccessClaims(user, issuedAt));
      env.asWritten && |AuthUtils.IssuedSignature(env.p, env.codecs, priv, AccessClaims(user, issuedAt))| % 3 != 0 ==>
      TokenVerify(env, ["Bearer " + t]) == Failed("illegal base64 data at input byte", None)
  {
    IssuedTokenVerifies(env, priv, AccessClaims(user, issuedAt));
  }

  /** The state newAccess leaves, from tables `s0`, `u0` to `s1`, `u1`: an inactive
      user gets 403 and nothing changes; a token already in the table gets 500 and
      nothing changes; otherwise one refresh session is added, the login time is
      recorded and the pair of tokens is returned. */
  ghost predicate NewAccessEffect(env: Env, priv: Crypto.Key, rnd: Result<AuthUtils.Random16, string>, user: User,
                                  s0: map<string, Session>, u0: seq<User>, s1: map<string, Session>, u1: seq<User>, out: Outcome)
  {
    var tok := NewTokenText(rnd);
    if !user.isActive then out == Answer(403, "Account Deactivated") && s1 == s0 && u1 == u0
    else if tok in s0 then out == Answer(500, "New Session Error") && s1 == s0 && u1 == u0
    else
      && out == Issued(Tokens(AuthUtils.GenerateAccessToken(env.p, env.codecs, priv, AccessClaims(user, env.now)), tok))
      && s1 == Issue(s0, tok, user.id, false, env.now)
      && u1 == SetLastLogin(u0, user.id, env.now)
  }

  /** newAccess (RSA signing errors left out). */
  method NewAccess(store: Store, env: Env, priv: Crypto.Key, rnd: Result<AuthUtils.Random16, string>, user: User) returns (out: Outcome)
    modifies store
    ensures NewAccessEffect(env, priv, rnd, user, old(store.sessions), old(store.users), store.sessions, store.users, out)
  {
    if !user.isActive {
      return Answer(403, "Account Deactivated");
    }
    var newToken := NewTokenText(rnd);
    var err := store.NewUserSession(user.id, newToken, false, env.now);
    if err.Some? {
      return Answer(500, "New Session Error");
    }
    var accessToken := AuthUtils.GenerateAccessToken(env.p, env.codecs, priv, AccessClaims(user, env.now));
    store.UpdateUserLoginTime(user.id, env.now);
    return Issued(Tokens(accessToken, newToken));
  }

  /** loginUser: newAccess for the record validateUserCreds handed on. */
  method LoginUser(store: Store, env: Env, priv: Crypto.Key, rnd: Result<AuthUtils.Random16, string>, user: User) returns (out: Outcome)
    modifies store
    ensures NewAccessEffect(env, priv, rnd, user, old(store.sessions), old(store.users), store.sessions, store.users, out)
  {
    out := NewAccess(store, env, priv, rnd, user);
  }

  /** The claims RefreshAccess goes on with: the token's, or the zero claims that
      ValidateAccessToken returns beside "expired". */
  function PresentedClaims(v: Verified): AuthUtils.Claims {
    match v
    case Verified(c) => c
    case Failed(_, ptr) => ptr.GetOr(AuthUtils.ZeroClaims)
    case VerifyPanic => AuthUtils.ZeroClaims
  }

  /** With an expired access token RefreshAccess goes on with the zero claims: it looks
      up the username "" and checks the refresh token against user id 0. */
  lemma ExpiredPresentsZeroClaims(env: Env, authorization: seq<string>)
    requires TokenVerify(env, authorization).Failed? && TokenVerify(env, authorization).err == "expired"
    ensures PresentedClaims(TokenVerify(env, authorization)) == AuthUtils.ZeroClaims
  {
    var h := HeaderGet(authorization);
    assert WellFormedBearer(h);
    var v := env.Validation(BearerToken(h));
    assert v.Rejected? && AuthUtils.ErrorText(v.err) == "expired";
    assert v.err == AuthUtils.Expired;
  }

  /** RefreshAccess: a token error other than "expired" is 401 with nothing changed;
      the user lookup and the body come next; then the refresh token is queried for
      the claims' user. A missing token is 401 with nothing changed; a refused one
      deletes every session of that user and answers 401 "Login Required"; an
      authorized one is invalidated and newAccess issues the next pair. */
  method RefreshAccess(store: Store, env: Env, priv: Crypto.Key, rnd: Result<AuthUtils.Random16, string>,
                       authorization: seq<string>, body: Result<string, string>) returns (out: Outcome)
    modifies store
    ensures var v := TokenVerify(env, authorization);
      v.Failed? && v.err != "expired" ==>
        out == Answer(401, "Invalid Token, please login or check headers") && store.sessions == old(store.sessions) && store.users == old(store.users)
    ensures var v := TokenVerify(env, authorization);
      var claims := PresentedClaims(v);
      (v.Verified? || (v.Failed? && v.err == "expired")) ==>
      match SelectUserAuth(old(store.users), claims.username)
      case Failure(_) => out == Answer(500, "Error finding User") && store.sessions == old(store.sessions) && store.users == old(store.users)
      case Success(user) =>
        match body
        case Failure(e) => out == Answer(422, e) && store.sessions == old(store.sessions) && store.users == old(store.users)
        case Success(token) =>
          match QueryDecision(Lookup(old(store.sessions), token), claims.userId, false, env.now)
          case Errored(e) => out == Answer(401, e) && store.sessions == old(store.sessions) && store.users == old(store.users)
          case Refused =>
            && out == Answer(401, "Login Required")
            && store.sessions == DropUser(old(store.sessions), claims.userId) && store.users == old(store.users)
          case Authorized =>
            NewAccessEffect(env, priv, rnd, user, Invalidate(old(store.sessions), token), old(store.users),
                            store.sessions, store.users, out)
    ensures TokenVerify(env, authorization).VerifyPanic? ==> out == Crash
  {
    var v := TokenVerify(env, authorization);
    if v.VerifyPanic? {
      return Crash;
    }
    if v.Failed? && v.err != "expired" {
      return Answer(401, "Invalid Token, please login or check headers");
    }
    var claims := PresentedClaims(v);
    var found := SelectUserAuth(store.users, claims.username);
    if found.Failure? {
      return Answer(500, "Error finding User");
    }
    var user := found.value;
    if body.Failure? {
      return Answer(422, body.error);
    }
    var token := body.value;
    var check := store.QueryToken(token, claims.userId, false, env.now);
    match check
    case Errored(e) =>
      return Answer(401, e);
    case Refused =>
      store.InvalidateAllSessions(claims.userId);
      return Answer(401, "Login Required");
    case Authorized =>
      store.InvalidateSession(token);
      out := NewAccess(store, env, priv, rnd, user);
  }

  /** The refresh scenario of the server's own client: rotating a refresh token, then
      replaying the old one, revokes every session of the user, so the new refresh
      token is refused as well. */
  method ReplayAfterRotation(store: Store, env: Env, priv: Crypto.Key, rnd: AuthUtils.Random16,
                             authorization: seq<string>, user: User, oldToken: string)
      returns (first: Outcome, second: Outcome, third: Outcome)
    requires TokenVerify(env, authorization).Verified?
    requires TokenVerify(env, authorization).claims.userId == user.id
    requires SelectUserAuth(store.users, TokenVerify(env, authorization).claims.username) == Success(user)
    requires user.isActive
    requires oldToken in store.sessions && store.sessions[oldToken].userId == user.id
    requires store.sessions[oldToken].valid && env.now <= store.sessions[oldToken].expires
    requires NewTokenText(Success(rnd)) !in store.sessions
    modifies store
    ensures first.Issued? && first.tokens.refresh == NewTokenText(Success(rnd))
    ensures second == Answer(401, "Login Required")
    ensures third == Answer(401, ErrNoRows)
    ensures forall t :: t in store.sessions ==> store.sessions[t].userId != user.id
  {
    var claims := TokenVerify(env, authorization).claims;
    ghost var s0, u0 := store.sessions, store.users;
    var newToken := NewTokenText(Success(rnd));
    assert PresentedClaims(TokenVerify(env, authorization)) == claims;
    assert QueryDecision(Lookup(s0, oldToken), claims.userId, false, env.now) == Authorized;
    assert newToken !in Invalidate(s0, oldToken);
    first := RefreshAccess(store, env, priv, Success(rnd), authorization, Success(oldToken));
    assert NewAccessEffect(env, priv, Success(rnd), user, Invalidate(s0, oldToken), u0, store.sessions, store.users, first);
    ghost var s1 := store.sessions;
    assert s1 == Issue(Invalidate(s0, oldToken), newToken, user.id, false, env.now);
    assert first.Issued? && first.tokens.refresh == newToken;
    assert QueryDecision(Lookup(s1, oldToken), claims.userId, false, env.now) == Refused;
    LoginTimeKeepsLookup(u0, user.id, env.now, claims.username);
    assert SelectUserAuth(store.users, claims.username) == Success(user.(lastLogin := env.now));
    second := RefreshAccess(store, env, priv, Success(rnd), authorization, Success(oldToken));
    assert store.sessions == DropUser(s1, user.id);
    assert newToken !in store.sessions;
    third := RefreshAccess(store, env, priv, Success(rnd), authorization, Success(newToken));
  }

  /** logoutUser: deletes the presented refresh token and no other. */
  method LogoutUser(store: Store, body: Result<string, string>) returns (out: Outcome)
    modifies store
    ensures body.Failure? ==> out == Answer(422, body.error) && store.sessions == old(store.sessions)
    ensures body.Success? ==> out == Answer(204, "") && store.sessions == old(store.sessions) - {body.value}
    ensures store.users == old(store.users)
  {
    if body.Failure? {
      return Answer(422, body.error);
    }
    store.DeleteSession(body.value);
    return Answer(204, "");
  }

  /** createPasswordToken: a reset session for the user with that email (user id 0
      when there is none); the body's decoding error is ignored, leaving email "". */
  method CreatePasswordToken(store: Store, rnd: Result<AuthUtils.Random16, string>, email: string, now: int) returns (out: Outcome)
    modifies store
    ensures store.users == old(store.users)
    ensures var tok := NewTokenText(rnd);
      if tok in old(store.sessions) then out.Answer? && out.status == 500 && store.sessions == old(store.sessions)
      else out == ResetIssued(tok) && store.sessions == Issue(old(store.sessions), tok, GetUserIdWithEmail(old(store.users), email), true, now)
  {
    var uid := GetUserIdWithEmail(store.users, email);
    var newToken := NewTokenText(rnd);
    var err := store.NewUserSession(uid, newToken, true, now);
    if err.Some? {
      return Answer(500, err.value);
    }
    return ResetIssued(newToken);
  }

  /** The body of a password change. */
  datatype ResetRequest = ResetRequest(token: string, username: string, password: string)

  /** changePassword: the reset token must belong to the named user and be a live
      reset token; then the digest is replaced and only that token is deleted. */
  method ChangePassword(store: Store, p: Crypto.Primitives, rnd: Result<AuthUtils.Random16, string>,
                        body: Result<ResetRequest, string>, now: int) returns (out: Outcome)
    modifies store
    ensures body.Failure? ==> out == Answer(400, body.error) && store.sessions == old(store.sessions) && store.users == old(store.users)
    ensures body.Success? ==>
      var uid := GetUserId(old(store.users), body.value.username);
      if QueryDecision(Lookup(old(store.sessions), body.value.token), uid, true, now) != Authorized
      then out == Answer(403, "Invalid Token or Username") && store.sessions == old(store.sessions) && store.users == old(store.users)
      else
        && out == Answer(202, "")
        && store.users == SetHash(old(store.users), uid, AuthUtils.GetPasswordHash(p, rnd, body.value.password))
        && store.sessions == old(store.sessions) - {body.value.token}
  {
    if body.Failure? {
      return Answer(400, body.error);
    }
    var req := body.value;
    var uid := GetUserId(store.users, req.username);
    var check := store.QueryToken(req.token, uid, true, now);
    if check != Authorized {
      return Answer(403, "Invalid Token or Username");
    }
    store.NewUserHashById(p, rnd, uid, req.password);
    store.DeleteSession(req.token);
    return Answer(202, "");
  }

  /** After a password change the user logs in with the new password. */
  lemma NewPasswordLogsIn(p: Crypto.Primitives, users: seq<User>, user: User, salt: AuthUtils.Random16, password: string)
    requires p.Sound()
    requires SelectUserAuth(users, user.username) == Success(user)
    ensures var hash := AuthUtils.GetPasswordHash(p, Success(salt), password);
      ValidateUserCreds(p, SetHash(users, user.id, hash), Success(Creds(user.username, password)))
        == Pass(user.(passwordHash := hash))
  {
    var hash := AuthUtils.GetPasswordHash(p, Success(salt), password);
    HashKeepsLookup(users, user.id, hash, user.username);
    var rows := WithUsername(users, user.username);
    assert |rows| == 1 && rows[0] == user;
    assert rows == [user];
    assert SetHash(rows, user.id, hash) == [user.(passwordHash := hash)];
    assert SelectUserAuth(SetHash(users, user.id, hash), user.username) == Success(user.(passwordHash := hash));
    CredentialsOfStoredDigest(p, SetHash(users, user.id, hash), user.(passwordHash := hash), salt, password);
  }

  // ---- Profile access ----

  /** The fields of UserMod, which validateMap looks keys up in (case-sensitively). */
  const UserModFields: set<string> := {"username", "first_name", "last_name", "email", "phone", "country"}

  /** Every key names a field of UserMod. */
  predicate ModifiableFields<V>(m: map<string, V>) {
    forall k :: k in m ==> k in UserModFields
  }

  /** validateMap: every key of the submitted map must name a field of UserMod; the
      first that does not ends the loop. */
  method ValidateMap<V>(m: map<string, V>, order: seq<string>) returns (ok: bool)
    requires Enumerates(order, m)
    ensures ok <==> ModifiableFields(m)
  {
    var i := 0;
    while i < |order|
      invariant 0 <= i <= |order|
      invariant forall j :: 0 <= j < i ==> order[j] in UserModFields
    {
      if order[i] !in UserModFields {
        return false;
      }
      i := i + 1;
    }
    return true;
  }

  /** Which record getUserInfo reads: a user id that does not parse is 404. */
  datatype InfoQuery = NotFound | PrivateOf(id: int) | PublicOf(id: int)

  /** Private access is for the requested user themself or for staff. */
  predicate MayReadPrivate(claims: AuthUtils.Claims, requested: int) {
    claims.userId == requested || claims.isStaff
  }

  /** getUserInfo as written: when private access is allowed it reads the caller's own
      record, so staff asking for another user get their own. */
  function GetUserInfoAsWritten(claims: AuthUtils.Claims, userParam: string): (q: InfoQuery)
    ensures Atoi(userParam).None? <==> q == NotFound
    ensures Atoi(userParam).Some? && MayReadPrivate(claims, Atoi(userParam).value) ==> q == PrivateOf(claims.userId)
    ensures Atoi(userParam).Some? && !MayReadPrivate(claims, Atoi(userParam).value) ==> q == PublicOf(Atoi(userParam).value)
  {
    match Atoi(userParam)
    case None => NotFound
    case Some(requested) =>
      if MayReadPrivate(claims, requested) then PrivateOf(claims.userId) else PublicOf(requested)
  }

  /** getUserInfo reading the requested record. */
  function GetUserInfo(claims: AuthUtils.Claims, userParam: string): (q: InfoQuery)
    ensures Atoi(userParam).None? <==> q == NotFound
    ensures q != NotFound ==> q.id == Atoi(userParam).value
    ensures q.PrivateOf? <==> Atoi(userParam).Some? && MayReadPrivate(claims, Atoi(userParam).value)
  {
    match Atoi(userParam)
    case None => NotFound
    case Some(requested) =>
      if MayReadPrivate(claims, requested) then PrivateOf(requested) else PublicOf(requested)
  }

  /** Staff asking for another user's record get their own private record back. */
  lemma StaffGetsOwnRecord(claims: AuthUtils.Claims, requested: nat)
    requires claims.isStaff && claims.userId != requested && requested <= MaxInt64
    ensures GetUserInfoAsWritten(claims, Itoa(requested)) == PrivateOf(claims.userId)
    ensures GetUserInfo(claims, Itoa(requested)) == PrivateOf(requested)
  {
    AtoiItoa(requested);
  }

  /** The UPDATE modifyUser runs. */
  datatype Update<V> = Update(id: int, query: string, args: seq<Arg<V>>)

  /** modifyUser as written, with the database's answer to the UPDATE as `execErr`.
      The update targets the caller's own row, and its error path calls Error() on the
      body decoder's error, which is nil there: the handler panics. */
  method ModifyUserAsWritten<V>(claims: AuthUtils.Claims, userParam: string, body: Result<map<string, V>, string>,
                                order: seq<string>, execErr: Option<string>) returns (out: Outcome, update: Option<Update<V>>)
    requires body.Success? ==> Enumerates(order, body.value)
    ensures Atoi(userParam).None? ==> out.Answer? && out.status == 404 && update.None?
    ensures Atoi(userParam).Some? && body.Failure? ==> out == Answer(422, body.error) && update.None?
    ensures Atoi(userParam).Some? && body.Success? ==>
      if !MayReadPrivate(claims, Atoi(userParam).value) then out == Answer(403, "You cannot change another user's info") && update.None?
      else if !ModifiableFields(body.value) then
        out == Answer(400, "Invalid Fields included that do not exist or cannot be modified") && update.None?
      else
        && update.Some? && update.value.id == claims.userId
        && out == (if execErr.Some? then Crash else Answer(200, ""))
  {
    var requested := Atoi(userParam);
    if requested.None? {
      return Answer(404, "strconv.Atoi: invalid syntax"), None;
    }
    if body.Failure? {
      return Answer(422, body.error), None;
    }
    if claims.userId != requested.value && !claims.isStaff {
      return Answer(403, "You cannot change another user's info"), None;
    }
    var valid := ValidateMap(body.value, order);
    if !valid {
      return Answer(400, "Invalid Fields included that do not exist or cannot be modified"), None;
    }
    var query, args := UpdateUserProfile(claims.userId, body.value, order);
    update := Some(Update(claims.userId, query, args));
    if execErr.Some? {
      return Crash, update;
    }
    out := Answer(200, "");
  }

  /** modifyUser updating the requested row and answering a failed UPDATE with 500
      and the database's error. */
  method ModifyUser<V>(claims: AuthUtils.Claims, userParam: string, body: Result<map<string, V>, string>,
                       order: seq<string>, execErr: Option<string>) returns (out: Outcome, update: Option<Update<V>>)
    requires body.Success? ==> Enumerates(order, body.value)
    ensures Atoi(userParam).None? ==> out.Answer? && out.status == 404 && update.None?
    ensures Atoi(userParam).Some? && body.Failure? ==> out == Answer(422, body.error) && update.None?
    ensures Atoi(userParam).Some? && body.Success? ==>
      if !MayReadPrivate(claims, Atoi(userParam).value) then out == Answer(403, "You cannot change another user's info") && update.None?
      else if !ModifiableFields(body.value) then
        out == Answer(400, "Invalid Fields included that do not exist or cannot be modified") && update.None?
      else
        && update.Some? && update.value.id == Atoi(userParam).value
        && |update.value.args| == |order| + 1 && update.value.args[0] == IdArg(Atoi(userParam).value)
        && out == (if execErr.Some? then Answer(500, execErr.value) else Answer(200, ""))
    ensures out != Crash
  {
    var requested := Atoi(userParam);
    if requested.None? {
      return Answer(404, "strconv.Atoi: invalid syntax"), None;
    }
    if body.Failure? {
      return Answer(422, body.error), None;
    }
    if claims.userId != requested.value && !claims.isStaff {
      return Answer(403, "You cannot change another user's info"), None;
    }
    var valid := ValidateMap(body.value, order);
    if !valid {
      return Answer(400, "Invalid Fields included that do not exist or cannot be modified"), None;
    }
    var query, args := UpdateUserProfile(requested.value, body.value, order);
    update := Some(Update(requested.value, query, args));
    if execErr.Some? {
      return Answer(500, execErr.value), update;
    }
    out := Answer(200, "");
  }

  /** An empty JSON object passes validateMap and yields an UPDATE with an empty SET
      list, which is not valid SQL. */
  lemma EmptyUpdateQuery()
    ensures UpdateConstructor("users", Join([], ", "), "id = $1") == "UPDATE users SET  WHERE id = $1"
  {
  }
}
