/** main.go: the route table of the API, the middleware chain each route runs before
    its handler, and VerifyTypeJSON. A request is reduced to what the guards read:
    its Content-Type, its Authorization values and its decoded credentials body. */
module Routes {
  import opened Wrappers
  import opened GoStrings
  import AuthUtils
  import Db
  import opened Middleware

  datatype Method = Get | Post | Put | Patch | Delete

  /** The middlewares a route can be wrapped in. */
  datatype Guard = VerifyTypeJSON | TokenRequired | ValidateUserCreds

  /** The handlers the routes lead to. */
  datatype Endpoint =
    | CreateUser | CreatePasswordToken | ChangePassword
    | GetUserInfo | ModifyUser | DeleteUserAccount
    | LoginUser | RefreshAccess | LogoutUser
    | CheckJwt | GetPublicKey

  /** The path patterns of the routes. */
  datatype Pattern = UserRoot | UserPassword | UserById | SessionRoot | SessionRefresh | CheckJwtRoot | PublicKey

  /** A route: its method and pattern, the guards in the order they run, and its handler. */
  datatype Route = Route(verb: Method, pattern: Pattern, guards: seq<Guard>, endpoint: Endpoint)

  /** The routes of apiRoutes, country lookup aside. Outer routers' middlewares run
      before those of the groups inside them. */
  const RouteTable: seq<Route> := [
    Route(Post, UserRoot, [VerifyTypeJSON], CreateUser),
    Route(Post, UserPassword, [VerifyTypeJSON], CreatePasswordToken),
    Route(Put, UserPassword, [VerifyTypeJSON], ChangePassword),
    Route(Get, UserById, [TokenRequired], GetUserInfo),
    Route(Patch, UserById, [TokenRequired], ModifyUser),
    Route(Delete, UserById, [TokenRequired, VerifyTypeJSON, ValidateUserCreds], DeleteUserAccount),
    Route(Post, SessionRoot, [VerifyTypeJSON, ValidateUserCreds], LoginUser),
    Route(Post, SessionRefresh, [VerifyTypeJSON, TokenRequired], RefreshAccess),
    Route(Delete, SessionRoot, [VerifyTypeJSON, TokenRequired], LogoutUser),
    Route(Get, CheckJwtRoot, [TokenRequired], CheckJwt),
    Route(Get, PublicKey, [], GetPublicKey)
  ]

  /** The first route from position `i` on registered for a method and pattern. */
  function Find(routes: seq<Route>, verb: Method, pattern: Pattern, i: nat): (r: Option<Route>)
    requires i <= |routes|
    ensures r.Some? ==> r.value in routes[i..] && r.value.verb == verb && r.value.pattern == pattern
    ensures r.None? ==> forall j :: i <= j < |routes| ==> !(routes[j].verb == verb && routes[j].pattern == pattern)
    decreases |routes| - i
  {
    if i == |routes| then None
    else if routes[i].verb == verb && routes[i].pattern == pattern then Some(routes[i])
    else Find(routes, verb, pattern, i + 1)
  }

  /** The media type of JSON bodies. */
  const JsonMediaType := "application/json"

  /** VerifyTypeJSON: the Content-Type must be exactly "application/json"; a blank one
      and any other one (parameters such as a charset included) get 415. */
  function CheckContentType(contentType: string): (r: Step<()>)
    ensures r.Pass? <==> contentType == JsonMediaType
    ensures r != Panic
    ensures contentType == "" ==> r == Stop(Response(415, "Content-Type Header is blank"))
    ensures contentType != "" && contentType != JsonMediaType ==> r == Stop(Response(415, "Unsupported Media Type"))
  {
    if contentType == "" then Stop(Response(415, "Content-Type Header is blank"))
    else if contentType != JsonMediaType then Stop(Response(415, "Unsupported Media Type"))
    else Pass(())
  }

  /** A media type with parameters is refused. */
  lemma CharsetRefused()
    ensures CheckContentType("application/json; charset=utf-8") == Stop(Response(415, "Unsupported Media Type"))
  {
    assert "application/json; charset=utf-8"[16] != JsonMediaType[15];
  }

  /** What the guards read of a request. */
  datatype Request = Request(contentType: string, authorization: seq<string>, creds: Result<Creds, string>)

  /** The end of a guard chain: the handler is reached, with the claims TokenRequired
      and the record validateUserCreds put in the request context, or a guard
      answered, or a guard panicked. */
  datatype Chain = Reached(claims: Option<AuthUtils.Claims>, user: Option<Db.User>) | Blocked(resp: Response) | Crashed

  /** What each middleware answers for a request. The middlewares are pure functions
      of the request, so a chain consults the answers of the guards it reaches. */
  datatype Verdicts = Verdicts(json: Step<()>, token: Step<AuthUtils.Claims>, creds: Step<Db.User>)

  function Judge(env: Env, users: seq<Db.User>, req: Request): Verdicts {
    Verdicts(CheckContentType(req.contentType), Middleware.TokenRequired(env, req.authorization),
             Middleware.ValidateUserCreds(env.p, users, req.creds))
  }

  /** One guard. */
  function RunGuard(v: Verdicts, g: Guard, claims: Option<AuthUtils.Claims>, user: Option<Db.User>): Chain {
    match g
    case VerifyTypeJSON =>
      (match v.json
       case Pass(_) => Reached(claims, user)
       case Stop(resp) => Blocked(resp)
       case Panic => Crashed)
    case TokenRequired =>
      (match v.token
       case Pass(c) => Reached(Some(c), user)
       case Stop(resp) => Blocked(resp)
       case Panic => Crashed)
    case ValidateUserCreds =>
      (match v.creds
       case Pass(u) => Reached(claims, Some(u))
       case Stop(resp) => Blocked(resp)
       case Panic => Crashed)
  }

  /** A guard passes the request. */
  predicate Passes(v: Verdicts, g: Guard) {
    match g
    case VerifyTypeJSON => v.json.Pass?
    case TokenRequired => v.token.Pass?
    case ValidateUserCreds => v.creds.Pass?
  }

  /** Every guard passes the request. */
  predicate AllPass(v: Verdicts, guards: seq<Guard>) {
    forall i :: 0 <= i < |guards| ==> Passes(v, guards[i])
  }

  /** The guards of a route, run in order, each handing the request to the next. The
      handler is reached exactly when every guard passes, and then with the claims of
      the token and the record of the credentials when those guards are in the chain. */
  function RunGuards(v: Verdicts, guards: seq<Guard>, claims: Option<AuthUtils.Claims>, user: Option<Db.User>): (r: Chain)
    ensures r.Reached? <==> AllPass(v, guards)
    ensures r.Reached? && TokenRequired in guards ==> r.claims == Some(v.token.value)
    ensures r.Reached? && TokenRequired !in guards ==> r.claims == claims
    ensures r.Reached? && ValidateUserCreds in guards ==> r.user == Some(v.creds.value)
    ensures r.Reached? && ValidateUserCreds !in guards ==> r.user == user
    decreases |guards|
  {
    if |guards| == 0 then Reached(claims, user)
    else
      match RunGuard(v, guards[0], claims, user)
      case Reached(c, u) =>
        assert forall g :: g in guards <==> g == guards[0] || g in guards[1..];
        var r := RunGuards(v, guards[1..], c, u);
        assert AllPass(v, guards) <==> AllPass(v, guards[1..]) by {
          if AllPass(v, guards[1..]) {
            forall i | 1 <= i < |guards| ensures guards[i] == guards[1..][i - 1] { }
          }
        }
        r
      case other =>
        assert !Passes(v, guards[0]);
        other
  }

  /** The chain a request to a registered route runs, from an empty context. */
  function Dispatch(env: Env, users: seq<Db.User>, req: Request, verb: Method, pattern: Pattern): (r: Option<(Endpoint, Chain)>)
    ensures r.None? <==> Find(RouteTable, verb, pattern, 0).None?
    ensures r.Some? ==> r.value.0 == Find(RouteTable, verb, pattern, 0).value.endpoint
  {
    match Find(RouteTable, verb, pattern, 0)
    case None => None
    case Some(route) => Some((route.endpoint, RunGuards(Judge(env, users, req), route.guards, None, None)))
  }

  /** The route for a method and pattern is the table entry at `k` when no entry
      before it has that method and pattern. */
  lemma {:induction false} FindEntry(verb: Method, pattern: Pattern, k: nat, i: nat)
    requires i <= k < |RouteTable| && RouteTable[k].verb == verb && RouteTable[k].pattern == pattern
    requires forall j :: i <= j < k ==> RouteTable[j].verb != verb || RouteTable[j].pattern != pattern
    ensures Find(RouteTable, verb, pattern, i) == Some(RouteTable[k])
    decreases k - i
  {
    if i < k {
      FindEntry(verb, pattern, k, i + 1);
    }
  }

  lemma RefreshRoute()
    ensures Find(RouteTable, Post, SessionRefresh, 0) == Some(Route(Post, SessionRefresh, [VerifyTypeJSON, TokenRequired], RefreshAccess))
  {
    FindEntry(Post, SessionRefresh, 7, 0);
  }

  lemma LoginRoute()
    ensures Find(RouteTable, Post, SessionRoot, 0) == Some(Route(Post, SessionRoot, [VerifyTypeJSON, ValidateUserCreds], LoginUser))
  {
    FindEntry(Post, SessionRoot, 6, 0);
  }

  lemma ResetTokenRoute()
    ensures Find(RouteTable, Post, UserPassword, 0) == Some(Route(Post, UserPassword, [VerifyTypeJSON], CreatePasswordToken))
  {
    FindEntry(Post, UserPassword, 1, 0);
  }

  lemma ChangePasswordRoute()
    ensures Find(RouteTable, Put, UserPassword, 0) == Some(Route(Put, UserPassword, [VerifyTypeJSON], ChangePassword))
  {
    FindEntry(Put, UserPassword, 2, 0);
  }

  lemma DeleteAccountRoute()
    ensures Find(RouteTable, Delete, UserById, 0)
      == Some(Route(Delete, UserById, [TokenRequired, VerifyTypeJSON, ValidateUserCreds], DeleteUserAccount))
  {
    FindEntry(Delete, UserById, 5, 0);
  }

  /** A refresh with an expired access token never reaches RefreshAccess: TokenRequired
      answers 401 "expired" first, so the handler's tolerance of expired tokens is
      unreachable through the router. */
  lemma ExpiredRefreshBlocked(env: Env, priv: Crypto.Key, claims: AuthUtils.Claims, users: seq<Db.User>, refresh: Result<Creds, string>)
    requires env.p.Sound() && env.codecs.Sound() && env.pub == env.p.publicOf(priv)
    requires claims.exp < env.now
    ensures var t := AuthUtils.GenerateAccessToken(env.p, env.codecs, priv, claims);
      (!env.asWritten || AuthUtils.DecodesAsWritten(env.p, env.codecs, priv, claims)) ==>
      Dispatch(env, users, Request(JsonMediaType, ["Bearer " + t], refresh), Post, SessionRefresh)
        == Some((RefreshAccess, Blocked(Response(401, "expired"))))
    ensures var t := AuthUtils.GenerateAccessToken(env.p, env.codecs, priv, claims);
      env.asWritten && |AuthUtils.IssuedSignature(env.p, env.codecs, priv, claims)| % 3 != 0 ==>
      Dispatch(env, users, Request(JsonMediaType, ["Bearer " + t], refresh), Post, SessionRefresh)
        == Some((RefreshAccess, Blocked(Response(500, "illegal base64 data at input byte"))))
  {
    var t := AuthUtils.GenerateAccessToken(env.p, env.codecs, priv, claims);
    ExpiredTokenRefused(env, priv, claims);
    RefreshBlockedAtToken(env, users, Request(JsonMediaType, ["Bearer " + t], refresh));
  }

  /** A JSON refresh request whose token TokenRequired refuses is answered with that refusal. */
  lemma RefreshBlockedAtToken(env: Env, users: seq<Db.User>, req: Request)
    requires req.contentType == JsonMediaType
    ensures Middleware.TokenRequired(env, req.authorization).Stop? ==>
      Dispatch(env, users, req, Post, SessionRefresh) == Some((RefreshAccess, Blocked(Middleware.TokenRequired(env, req.authorization).resp)))
  {
    var v := Judge(env, users, req);
    if !v.token.Stop? {
      return;
    }
    assert v.json == Pass(());
    RefreshRoute();
    var guards := [VerifyTypeJSON, TokenRequired];
    assert RunGuards(v, guards[1..], None, None) == Blocked(v.token.resp);
  }

  /** The password-reset routes need no token: a JSON request reaches the handler
      whatever its Authorization header holds. */
  lemma PasswordRoutesOpen(env: Env, users: seq<Db.User>, authorization: seq<string>, body: Result<Creds, string>, verb: Method)
    requires verb == Post || verb == Put
    ensures Dispatch(env, users, Request(JsonMediaType, authorization, body), verb, UserPassword)
        == Some((if verb == Post then CreatePasswordToken else ChangePassword, Reached(None, None)))
  {
    ResetTokenRoute();
    ChangePasswordRoute();
    var v := Judge(env, users, Request(JsonMediaType, authorization, body));
    assert v.json == Pass(());
    assert RunGuards(v, [VerifyTypeJSON][1..], None, None) == Reached(None, None);
  }

  /** Deleting an account needs a valid token, a JSON body and the account's
      credentials. */
  lemma DeleteAccountChain(env: Env, users: seq<Db.User>, req: Request)
    ensures var r := Dispatch(env, users, req, Delete, UserById);
      && r.Some? && r.value.0 == DeleteUserAccount
      && (r.value.1.Reached? <==>
           TokenVerify(env, req.authorization).Verified? && req.contentType == JsonMediaType
           && Middleware.ValidateUserCreds(env.p, users, req.creds).Pass?)
  {
    var v := Judge(env, users, req);
    DeleteAccountDispatch(env, users, req);
    ThreeGuards(v, TokenRequired, VerifyTypeJSON, ValidateUserCreds);
    JudgePasses(env, users, req);
  }

  /** Each guard of a request passes exactly when its middleware does. */
  lemma JudgePasses(env: Env, users: seq<Db.User>, req: Request)
    ensures Passes(Judge(env, users, req), TokenRequired) <==> TokenVerify(env, req.authorization).Verified?
    ensures Passes(Judge(env, users, req), VerifyTypeJSON) <==> req.contentType == JsonMediaType
    ensures Passes(Judge(env, users, req), ValidateUserCreds) <==> Middleware.ValidateUserCreds(env.p, users, req.creds).Pass?
  {
  }

  lemma DeleteAccountDispatch(env: Env, users: seq<Db.User>, req: Request)
    ensures Dispatch(env, users, req, Delete, UserById)
      == Some((DeleteUserAccount, RunGuards(Judge(env, users, req), [TokenRequired, VerifyTypeJSON, ValidateUserCreds], None, None)))
  {
    DeleteAccountRoute();
  }

  /** A chain of three guards reaches the handler exactly when each of them passes. */
  lemma ThreeGuards(v: Verdicts, g0: Guard, g1: Guard, g2: Guard)
    ensures RunGuards(v, [g0, g1, g2], None, None).Reached? <==> Passes(v, g0) && Passes(v, g1) && Passes(v, g2)
  {
    var guards := [g0, g1, g2];
    assert AllPass(v, guards) <==> Passes(v, guards[0]) && Passes(v, guards[1]) && Passes(v, guards[2]);
  }

  /** The token is checked first: a refused token is answered as TokenRequired
      answers it, whatever the body and its Content-Type. */
  lemma DeleteAccountTokenFirst(env: Env, users: seq<Db.User>, req: Request)
    requires TokenVerify(env, req.authorization).Failed?
    ensures Dispatch(env, users, req, Delete, UserById)
      == Some((DeleteUserAccount, Blocked(Middleware.TokenRequired(env, req.authorization).resp)))
  {
    DeleteAccountRoute();
    var v := Judge(env, users, req);
    assert v.token.Stop?;
    assert RunGuards(v, [TokenRequired, VerifyTypeJSON, ValidateUserCreds], None, None) == Blocked(v.token.resp);
  }

  /** Logging in takes a JSON body and valid credentials, and no token; the handler
      receives the stored record. */
  lemma LoginChain(env: Env, users: seq<Db.User>, req: Request)
    requires req.contentType == JsonMediaType
    requires Middleware.ValidateUserCreds(env.p, users, req.creds).Pass?
    ensures Dispatch(env, users, req, Post, SessionRoot)
      == Some((LoginUser, Reached(None, Some(Middleware.ValidateUserCreds(env.p, users, req.creds).value))))
  {
    LoginRoute();
    var v := Judge(env, users, req);
    var guards := [VerifyTypeJSON, ValidateUserCreds];
    assert RunGuards(v, guards[1..][1..], None, Some(v.creds.value)) == Reached(None, Some(v.creds.value));
    assert RunGuards(v, guards[1..], None, None) == Reached(None, Some(v.creds.value));
  }
}
