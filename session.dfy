/**
  Authentication and cookie sessions (app/utils/session.server.ts).

  Hashing is a pair of functions `hash`/`compare` with one law (a password
  verifies against any of its own hashes). The cookie codec is abstract: a request
  carries the payload its cookie decodes to, and a response carries what its
  `Set-Cookie` header asks the browser to store.
*/
module Session {
  import opened Wrappers
  import opened Db

  // ---------------------------------------------------------------------------
  // Cookie configuration

  const SecondInMinutes := 60
  const MinutesInHours := 60
  const HoursInDay := 24
  const DaysInMonth := 30
  /** The cookie's maximum age, in seconds. */
  const ThirtyDays := SecondInMinutes * MinutesInHours * HoursInDay * DaysInMonth

  lemma ThirtyDaysInSeconds()
    ensures ThirtyDays == 2592000 == 30 * 86400
  {
  }

  /** The process environment the module reads when it is loaded. */
  datatype Env = Env(sessionSecret: Option<string>, nodeEnv: Option<string>)

  datatype CookieOptions = CookieOptions(
    name: string, secure: bool, secrets: seq<string>, sameSite: string,
    path: string, maxAge: int, httpOnly: bool)

  /**
    The options given to `createCookieSessionStorage`, or the error thrown at
    module load when `SESSION_SECRET` is unset or empty.
  */
  function Storage(env: Env): (r: Result<CookieOptions, string>)
    ensures r.Failure? <==> env.sessionSecret == None || env.sessionSecret == Some("")
    ensures r.Failure? ==> r.error == "SESSION_SECRET must be set"
    ensures r.Success? ==>
      && r.value.maxAge == 2592000
      && r.value.secrets == [env.sessionSecret.value]
      && r.value.secure == (env.nodeEnv == Some("production"))
      && r.value.httpOnly && r.value.sameSite == "lax" && r.value.path == "/"
      && r.value.name == "RJ_session"
  {
    match env.sessionSecret
    case None => Failure("SESSION_SECRET must be set")
    case Some(secret) =>
      if secret == "" then Failure("SESSION_SECRET must be set")
      else Success(CookieOptions(
        name := "RJ_session", secure := env.nodeEnv == Some("production"),
        secrets := [secret], sameSite := "lax", path := "/",
        maxAge := ThirtyDays, httpOnly := true))
  }

  // ---------------------------------------------------------------------------
  // Sessions, requests and responses

  /** A value stored in a session payload (JSON). */
  datatype Json = JString(s: string) | JNumber(n: real) | JBool(b: bool) | JNull

  /** JavaScript truthiness of a JSON value. */
  predicate Truthy(v: Json)
  {
    match v
    case JString(s) => s != ""
    case JNumber(n) => n != 0.0
    case JBool(b) => b
    case JNull => false
  }

  /** The decoded payload of a session cookie. */
  type SessionData = map<string, Json>

  /** What a request offers this module: its URL's pathname and its decoded session. */
  datatype Request = Request(pathname: string, session: SessionData)

  /** What a `Set-Cookie` header asks for: nothing, store this payload, or expire the cookie. */
  datatype CookieDirective = NoCookie | Commit(payload: SessionData) | Destroy

  /** A redirect response: its `Location` and its `Set-Cookie` intent. */
  datatype Response = Response(location: string, setCookie: CookieDirective)

  /**
    What a call may throw: a redirect response, the not yet settled Promise of
    one (thrown without `await`), or a database error. A caller that recognises
    a thrown redirect by its being a Response sees only the first.
  */
  datatype Thrown = ThrownResponse(response: Response) | ThrownPromise(pending: Response) | DatabaseError

  /** A call that returns a value or throws. */
  datatype Outcome<+T> = Return(value: T) | Throw(thrown: Thrown)

  /** A session handle, whose payload `set` changes in memory until it is committed. */
  class SessionHandle {
    var data: SessionData

    /** `storage.getSession()` without a cookie: an empty session. */
    constructor ()
      ensures data == map[]
    {
      data := map[];
    }

    method Set(key: string, value: Json)
      modifies this
      ensures data == old(data)[key := value]
    {
      data := data[key := value];
    }
  }

  // ---------------------------------------------------------------------------
  // Password hashing

  type Salt = nat

  /** `bcrypt.hash` (with a random salt) and `bcrypt.compare`. */
  datatype Hasher = Hasher(hash: (string, Salt) -> string, compare: (string, string) -> bool)

  /** A password always verifies against a hash of itself. */
  ghost predicate Sound(h: Hasher)
  {
    forall p: string, s: Salt :: h.compare(p, h.hash(p, s))
  }

  // ---------------------------------------------------------------------------
  // Registration and login

  /**
    `register`: hashes the password and creates the user; the database's error
    (a taken username or id) is thrown on. On success exactly one row is added,
    holding the hash and not the password, and nothing else changes.
  */
  method Register(store: UserStore, hasher: Hasher, salt: Salt, newId: UserId, password: string, username: string)
    returns (r: Outcome<Identity>)
    requires store.Valid()
    modifies store
    ensures store.Valid()
    ensures old(username in store.users || IdInUse(store.users, newId)) ==>
      r == Throw(DatabaseError) && store.users == old(store.users)
    ensures !old(username in store.users || IdInUse(store.users, newId)) ==>
      && r == Return(Identity(newId, username))
      && store.users == old(store.users)[username := UserRow(newId, hasher.hash(password, salt))]
      && store.users.Keys == old(store.users).Keys + {username}
  {
    var passwordHash := hasher.hash(password, salt);
    var user := store.Create(username, passwordHash, newId);
    if user.None? {
      return Throw(DatabaseError);
    }
    r := Return(Identity(user.value.id, username));
  }

  /**
    `login`: the identity of the user when the username exists and the password
    verifies against its stored hash, null otherwise. An unknown username and a
    wrong password give the same null.
  */
  function Login(users: Users, hasher: Hasher, password: string, username: string): (r: Option<Identity>)
    ensures r.Some? <==> username in users && hasher.compare(password, users[username].passwordHash)
    ensures r.Some? ==> r.value == Identity(users[username].id, username)
    ensures username !in users ==> r == None
  {
    match FindByUsername(users, username)
    case None => None
    case Some(user) =>
      var isCorrectPassword := hasher.compare(password, user.passwordHash);
      if !isCorrectPassword then None
      else Some(Identity(user.id, username))
  }

  /** After registering a username with a password, logging in with that pair succeeds. */
  lemma LoginAfterRegister(users: Users, hasher: Hasher, salt: Salt, newId: UserId, password: string, username: string)
    requires Sound(hasher)
    ensures Login(users[username := UserRow(newId, hasher.hash(password, salt))], hasher, password, username)
      == Some(Identity(newId, username))
  {
    assert hasher.compare(password, hasher.hash(password, salt));
  }

  // ---------------------------------------------------------------------------
  // The current user

  /** `getUserId`: the session's `userId` when it is a non-empty string, null otherwise. */
  function GetUserId(request: Request): (r: Option<UserId>)
    ensures r.Some? <==>
      "userId" in request.session && request.session["userId"].JString? && request.session["userId"].s != ""
    ensures r.Some? ==> request.session["userId"] == JString(r.value)
  {
    if "userId" !in request.session then None
    else
      var userId := request.session["userId"];
      if !Truthy(userId) || !userId.JString? then None
      else Some(userId.s)
  }

  /** The redirect to the login page that carries the return path. */
  function LoginRedirect(target: string, serialize: seq<(string, string)> -> string): Response
  {
    Response("/login?" + serialize([("redirectTo", target)]), NoCookie)
  }

  /**
    `requireUserId(request, redirectTo = pathname)`: the user id when there is one;
    otherwise it throws a redirect to `/login?` followed by the serialised
    `redirectTo` parameter, which defaults to the request's pathname.
    `serialize` is the URLSearchParams serialiser.
  */
  function RequireUserId(request: Request, redirectTo: Option<string>, serialize: seq<(string, string)> -> string)
    : (r: Outcome<UserId>)
    ensures r.Return? <==> GetUserId(request).Some?
    ensures r.Return? ==> request.session["userId"] == JString(r.value)
    ensures r.Throw? ==>
      r.thrown == ThrownResponse(Response(
        "/login?" + serialize([("redirectTo", if redirectTo.Some? then redirectTo.value else request.pathname)]),
        NoCookie))
  {
    var userId := GetUserId(request);
    if userId.None? then
      Throw(ThrownResponse(LoginRedirect(redirectTo.GetOr(request.pathname), serialize)))
    else Return(userId.value)
  }

  /** A redirect to `location` that commits a session whose only entry is `userId`. */
  function SessionRedirect(userId: UserId, location: string): Response
  {
    Response(location, Commit(map["userId" := JString(userId)]))
  }

  /**
    `createUserSession`: a fresh session whose only entry is `userId`, committed,
    with a redirect to `redirectTo` exactly as given.
  */
  method CreateUserSession(userId: UserId, redirectTo: string) returns (r: Response)
    ensures r == SessionRedirect(userId, redirectTo)
  {
    var session := new SessionHandle();
    session.Set("userId", JString(userId));
    r := Response(redirectTo, Commit(session.data));
  }

  /** `logout`: a redirect to `/login` that expires the session cookie. */
  function Logout(request: Request): (r: Response)
    ensures r.location == "/login" && r.setCookie == Destroy
  {
    Response("/login", Destroy)
  }

  /**
    `getUser` as written: null without a lookup when there is no user id;
    otherwise the lookup's result, which is null for an id no row has. Only a
    lookup that throws (`lookupFails`) leads to `logout`, and since `logout` is
    async and its call is not awaited, what is thrown is the Promise of the
    redirect, not the redirect.
  */
  function GetUser(request: Request, users: Users, lookupFails: bool): (r: Outcome<Option<Identity>>)
    requires IdsUnique(users)
    ensures GetUserId(request).None? ==> r == Return(None)
    ensures r.Throw? <==> GetUserId(request).Some? && lookupFails
    ensures r.Throw? ==> r.thrown == ThrownPromise(Response("/login", Destroy))
    ensures r.Return? && r.value.Some? ==>
      && request.session["userId"] == JString(r.value.value.id)
      && r.value.value.username in users
      && users[r.value.value.username].id == r.value.value.id
    ensures r.Return? && r.value.None? && GetUserId(request).Some? ==> !IdInUse(users, GetUserId(request).value)
  {
    var userId := GetUserId(request);
    if userId.None? then Return(None)
    else if lookupFails then Throw(ThrownPromise(Logout(request)))
    else Return(FindById(users, userId.value))
  }

  /**
    `getUser` with `throw await logout(request)`: a failing lookup throws the
    logout redirect itself; every other outcome is the one `getUser` gives.
  */
  function GetUserAwaited(request: Request, users: Users, lookupFails: bool): (r: Outcome<Option<Identity>>)
    requires IdsUnique(users)
    ensures r.Throw? <==> GetUserId(request).Some? && lookupFails
    ensures r.Throw? ==> r.thrown == ThrownResponse(Response("/login", Destroy))
    ensures r.Return? ==> r == GetUser(request, users, lookupFails)
  {
    var r := GetUser(request, users, lookupFails);
    if r.Throw? && r.thrown.ThrownPromise? then Throw(ThrownResponse(r.thrown.pending)) else r
  }

  /**
    A session naming a user whose lookup fails: `getUser` throws a Promise, which
    is not a redirect, while the awaited version throws the logout redirect.
  */
  lemma UnawaitedLogoutIsNotARedirect()
    ensures var request := Request("/jokes", map["userId" := JString("u")]);
      && GetUser(request, map[], true) == Throw(ThrownPromise(Response("/login", Destroy)))
      && !GetUser(request, map[], true).thrown.ThrownResponse?
      && GetUserAwaited(request, map[], true) == Throw(ThrownResponse(Response("/login", Destroy)))
  {
    var request := Request("/jokes", map["userId" := JString("u")]);
    assert GetUserId(request) == Some("u");
  }
}
