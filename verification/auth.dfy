/** The authentication router (app/routers/auth.py): identity resolution
    from the session cookie, registration, login and logout. */
module Auth {
  import opened Http
  import opened Config
  import opened Models
  import opened Security
  import opened Store

  const BearerPrefix: string := "Bearer "

  const NotAuthenticated: string := "Not authenticated"
  const InvalidCredentials: string := "Invalid authentication credentials"
  const UsernameRegistered: string := "Username already registered"
  const NicknameRegistered: string := "Nickname already registered"
  const IncorrectCredentials: string := "Incorrect username or password"
  const LoggedIn: string := "Successfully logged in"
  const LoggedOut: string := "Successfully logged out"
  /** Stands for the framework's structured report of a body that fails
      its declared constraints. */
  const ValidationFailed: string := "Request validation failed"

  /** Body of the login request. */
  datatype LoginRequest = LoginRequest(username: string, password: string)

  predicate HasBearerPrefix(v: string)
  {
    |BearerPrefix| <= |v| && v[..|BearerPrefix|] == BearerPrefix
  }

  /** The token carried by a session cookie value: the value without its
      leading "Bearer ", or the value itself when it has no such prefix. */
  function StripBearer(v: string): (t: string)
    ensures HasBearerPrefix(v) ==> BearerPrefix + t == v
    ensures !HasBearerPrefix(v) ==> t == v
  {
    if HasBearerPrefix(v) then v[|BearerPrefix|..] else v
  }

  /** The cookie value login writes for a token. */
  function CookieValue(token: string): (v: string)
  {
    BearerPrefix + token
  }

  /** Stripping a value that login wrote gives back exactly the token. */
  lemma StripCookieValue(token: string)
    ensures HasBearerPrefix(CookieValue(token))
    ensures StripBearer(CookieValue(token)) == token
  {
    assert CookieValue(token)[..|BearerPrefix|] == BearerPrefix;
  }

  /** `User.get(id=sub)`: the user whose id the subject claim names. */
  function LookupSubject(users: map<nat, User>, sub: string): (r: Option<User>)
    ensures r.Some? ==> r.value in users.Values
    ensures r.Some? && UsersWellFormed(users) ==> ParseDecimal(sub) == Some(r.value.id)
    ensures (ParseDecimal(sub).Some? && ParseDecimal(sub).value in users) ==> r.Some?
  {
    match ParseDecimal(sub)
    case None => None
    case Some(id) => if id in users then Some(users[id]) else None
  }

  /** `get_current_user`: the user a request's cookies authenticate.
      A missing or empty cookie is rejected before anything is decoded or
      looked up; every rejection is a 401. Success is exactly a present
      cookie whose token decodes to a subject naming a stored user, and
      the user returned is that one. */
  function CurrentUser(codec: Codec, users: map<nat, User>, cookies: map<string, string>): (r: Result<User>)
    ensures (CookieName !in cookies || cookies[CookieName] == "") ==> r == Err(401, NotAuthenticated)
    ensures (CookieName in cookies && cookies[CookieName] != "" && r.Err?) ==> r == Err(401, InvalidCredentials)
    ensures r.Ok? <==>
      && CookieName in cookies && cookies[CookieName] != ""
      && codec.decode(StripBearer(cookies[CookieName])).Some?
      && LookupSubject(users, codec.decode(StripBearer(cookies[CookieName])).value).Some?
    ensures r.Ok? ==>
      Some(r.value) == LookupSubject(users, codec.decode(StripBearer(cookies[CookieName])).value)
    ensures r.Ok? ==> r.value in users.Values
  {
    if CookieName !in cookies || cookies[CookieName] == "" then
      Err(401, NotAuthenticated)
    else
      match codec.decode(StripBearer(cookies[CookieName]))
      case None => Err(401, InvalidCredentials)
      case Some(sub) =>
        match LookupSubject(users, sub)
        case None => Err(401, InvalidCredentials)
        case Some(u) => Ok(u)
  }

  /** A token that does not decode and a token naming no stored user are
      answered identically, so a caller cannot tell which check failed. */
  lemma RejectionsIndistinguishable(codec: Codec, users: map<nat, User>, cookies: map<string, string>)
    requires CookieName in cookies && cookies[CookieName] != ""
    ensures codec.decode(StripBearer(cookies[CookieName])).None? ==>
              CurrentUser(codec, users, cookies) == Err(401, InvalidCredentials)
    ensures (codec.decode(StripBearer(cookies[CookieName])).Some? &&
             LookupSubject(users, codec.decode(StripBearer(cookies[CookieName])).value).None?) ==>
              CurrentUser(codec, users, cookies) == Err(401, InvalidCredentials)
  {
  }

  /** Stands for the ORM's text for a `get` that finds no row; the
      application's ORM exception handler (main.py:21-27) answers that
      exception with 404 and this text. */
  const ObjectMissing: string := "Object does not exist"

  /** The framework's reply to an exception no handler catches. */
  const ServerError: string := "Internal Server Error"

  /** `get_current_user` as the code is written: `User.get` raises when no
      row has the subject's id, and that exception is not the token error
      the handler catches. For a subject that reads as an id it reaches the
      ORM's exception handler, which answers 404, so the 401 branch for a
      missing user is never reached. A subject that does not read as an id
      fails the conversion before the query, and no handler catches that:
      a server error. Every other step is the same as in `CurrentUser`. */
  function CurrentUserAsWritten(codec: Codec, users: map<nat, User>, cookies: map<string, string>): (r: Result<User>)
    ensures r.Ok? <==> CurrentUser(codec, users, cookies).Ok?
    ensures r.Ok? ==> r == CurrentUser(codec, users, cookies)
    ensures r.Err? && r.status == 401 ==> r == CurrentUser(codec, users, cookies)
    ensures r.Err? && r.status != 401 <==>
      && CookieName in cookies && cookies[CookieName] != ""
      && codec.decode(StripBearer(cookies[CookieName])).Some?
      && LookupSubject(users, codec.decode(StripBearer(cookies[CookieName])).value).None?
    ensures r.Err? && r.status == 404 <==>
      && CookieName in cookies && cookies[CookieName] != ""
      && codec.decode(StripBearer(cookies[CookieName])).Some?
      && var id := ParseDecimal(codec.decode(StripBearer(cookies[CookieName])).value);
      id.Some? && id.value !in users
    ensures r.Err? && r.status != 401 ==> r == Err(404, ObjectMissing) || r == Err(500, ServerError)
  {
    if CookieName !in cookies || cookies[CookieName] == "" then
      Err(401, NotAuthenticated)
    else
      match codec.decode(StripBearer(cookies[CookieName]))
      case None => Err(401, InvalidCredentials)
      case Some(sub) =>
        match LookupSubject(users, sub)
        case None =>
          if ParseDecimal(sub).Some? then Err(404, ObjectMissing) else Err(500, ServerError)
        case Some(u) => Ok(u)
  }

  /** A genuine session token for user 1, presented when no user 1 exists,
      is a 404 as written and a 401 as intended. */
  lemma UnknownSubjectIsNotFound(codec: Codec, cookies: map<string, string>)
    requires Sound(codec)
    requires cookies == map[CookieName := CookieValue(codec.encode("1"))]
    ensures CurrentUserAsWritten(codec, map[], cookies) == Err(404, ObjectMissing)
    ensures CurrentUser(codec, map[], cookies) == Err(401, InvalidCredentials)
  {
    StripCookieValue(codec.encode("1"));
  }

  /** A genuine token whose subject is not a number is a server error as
      written, whatever users are stored, and a 401 as intended. */
  lemma NonNumericSubjectIsServerError(codec: Codec, users: map<nat, User>, cookies: map<string, string>)
    requires Sound(codec)
    requires cookies == map[CookieName := CookieValue(codec.encode("abc"))]
    ensures CurrentUserAsWritten(codec, users, cookies) == Err(500, ServerError)
    ensures CurrentUser(codec, users, cookies) == Err(401, InvalidCredentials)
  {
    StripCookieValue(codec.encode("abc"));
    assert !IsDigit("abc"[0]);
  }

  /** A registration adds a row under a fresh id, and that does not change
      whom an existing session authenticates. */
  lemma SessionSurvivesRegistration(codec: Codec, users: map<nat, User>, id: nat, u: User, cookies: map<string, string>)
    requires id !in users
    requires CurrentUser(codec, users, cookies).Ok?
    ensures CurrentUser(codec, users[id := u], cookies) == CurrentUser(codec, users, cookies)
  {
    var sub := codec.decode(StripBearer(cookies[CookieName])).value;
    assert LookupSubject(users[id := u], sub) == LookupSubject(users, sub);
  }

  /** The session cookie login sets for `u`: the bearer token for the
      subject `str(u.id)`, HttpOnly, living as long as the token. */
  function SessionCookie(codec: Codec, u: User): (c: SetCookie)
  {
    SetCookie(
      key := CookieName,
      value := CookieValue(codec.encode(DecimalString(u.id))),
      maxAge := Some(AccessTokenExpireMinutes * 60),
      expires := None,
      path := "/",
      domain := CookieDomain,
      secure := CookieSecure,
      httpOnly := true,
      sameSite := CookieSameSite)
  }

  /** The directive logout sends: the same cookie, emptied and expired. */
  function ClearedCookie(): (c: SetCookie)
  {
    SetCookie(
      key := CookieName,
      value := "",
      maxAge := Some(0),
      expires := Some(0),
      path := "/",
      domain := CookieDomain,
      secure := CookieSecure,
      httpOnly := false,
      sameSite := CookieSameSite)
  }

  /** Round trip: presenting the cookie that login set for a stored user
      authenticates exactly that user, provided the codec decodes its own
      tokens. With a real signer this holds until the token expires. */
  lemma SessionCookieAuthenticates(codec: Codec, users: map<nat, User>, u: User, cookies: map<string, string>)
    requires Sound(codec) && UsersWellFormed(users)
    requires u.id in users && users[u.id] == u
    requires CookieName in cookies && cookies[CookieName] == SessionCookie(codec, u).value
    ensures CurrentUser(codec, users, cookies) == Ok(u)
  {
    var token := codec.encode(DecimalString(u.id));
    StripCookieValue(token);
    DecimalRoundTrip(u.id);
  }

  /** The lifetime login gives the cookie, and the attributes logout must
      repeat for its deletion to reach the same cookie. */
  lemma LogoutMatchesLogin(codec: Codec, u: User)
    ensures SessionCookie(codec, u).maxAge == Some(AccessTokenExpireMinutes * 60)
    ensures SessionCookie(codec, u).httpOnly
    ensures var issued, del := SessionCookie(codec, u), ClearedCookie();
      && del.key == issued.key && del.path == issued.path && del.domain == issued.domain
      && del.secure == issued.secure && del.sameSite == issued.sameSite
      && del.value == "" && del.maxAge == Some(0)
  {
  }

  /** `register`: the username is checked before the nickname; only the
      digest of the password is stored; the reply omits the password. */
  method Register(db: Database, codec: Codec, input: UserIn) returns (r: Result<PublicUser>)
    requires db.Valid()
    modifies db
    ensures db.Valid()
    ensures !ValidUserIn(input) ==> r == Err(422, ValidationFailed)
    ensures ValidUserIn(input) && UsernameTaken(old(db.users), input.username) ==>
              r == Err(400, UsernameRegistered)
    ensures ValidUserIn(input) && !UsernameTaken(old(db.users), input.username)
              && NicknameTaken(old(db.users), input.nickname) ==>
              r == Err(400, NicknameRegistered)
    ensures r.Ok? <==> ValidUserIn(input) && !UsernameTaken(old(db.users), input.username)
                       && !NicknameTaken(old(db.users), input.nickname)
    ensures r.Err? ==> unchanged(db)
    ensures r.Ok? ==>
              var u := User(old(db.nextUserId), input.username, input.nickname, codec.hash(input.password), db.clock);
              && u.id !in old(db.users)
              && db.users == old(db.users)[u.id := u]
              && r.value == ToPublic(u)
              && db.nextUserId == old(db.nextUserId) + 1
              && old(db.clock) < db.clock
    ensures db.posts == old(db.posts) && db.nextPostId == old(db.nextPostId)
  {
    if !ValidUserIn(input) {
      return Err(422, ValidationFailed);
    }
    if UsernameTaken(db.users, input.username) {
      return Err(400, UsernameRegistered);
    }
    if NicknameTaken(db.users, input.nickname) {
      return Err(400, NicknameRegistered);
    }
    var hashed := codec.hash(input.password);
    var u := db.InsertUser(input.username, input.nickname, hashed);
    r := Ok(ToPublic(u));
  }

  /** The credential check of `login`: the row with that username, when
      the password verifies against its digest. An unknown username and a
      wrong password are the same None. */
  function Authenticate(codec: Codec, users: map<nat, User>, req: LoginRequest): (r: Option<User>)
    requires UniqueUsernames(users)
    ensures r.Some? ==> r.value in users.Values && r.value.username == req.username
    ensures r.Some? ==> codec.verify(req.password, r.value.password)
    ensures !UsernameTaken(users, req.username) ==> r.None?
    ensures r.None? && UsernameTaken(users, req.username) ==>
              !codec.verify(req.password, UserNamed(users, req.username).value.password)
  {
    var found := UserNamed(users, req.username);
    if found.None? || !codec.verify(req.password, found.value.password) then None else found
  }

  /** A stored user presenting the password whose digest was stored passes
      the check, provided the hasher verifies its own digests. */
  lemma StoredPasswordAuthenticates(codec: Codec, users: map<nat, User>, u: User, password: string)
    requires Sound(codec) && UsersWellFormed(users) && UniqueUsernames(users)
    requires u.id in users && users[u.id] == u && u.password == codec.hash(password)
    ensures Authenticate(codec, users, LoginRequest(u.username, password)) == Some(u)
  {
    UserNamedFindsRow(users, u);
  }

  /** `login`: an unknown username and a wrong password get the same 401;
      on success the session cookie for that user is appended to the
      response. The user table is only read. */
  method Login(db: Database, codec: Codec, resp: Response, req: LoginRequest) returns (r: Result<string>)
    requires db.Valid()
    modifies resp
    ensures Authenticate(codec, db.users, req).None? ==>
              r == Err(401, IncorrectCredentials) && resp.cookies == old(resp.cookies)
    ensures Authenticate(codec, db.users, req).Some? ==>
              && r == Ok(LoggedIn)
              && resp.cookies == old(resp.cookies) + [SessionCookie(codec, Authenticate(codec, db.users, req).value)]
  {
    var found := UserNamed(db.users, req.username);
    if found.None? || !codec.verify(req.password, found.value.password) {
      return Err(401, IncorrectCredentials);
    }
    resp.AddCookie(SessionCookie(codec, found.value));
    r := Ok(LoggedIn);
  }

  /** `logout`: the cookie is cleared with the attributes login used. No
      table is touched and the token itself stays valid until it expires. */
  method Logout(resp: Response) returns (r: Result<string>)
    modifies resp
    ensures r == Ok(LoggedOut)
    ensures resp.cookies == old(resp.cookies) + [ClearedCookie()]
  {
    resp.AddCookie(ClearedCookie());
    r := Ok(LoggedOut);
  }

  /** `get_current_user_info`: the public view of the authenticated user,
      or the resolver's 401. */
  function Me(codec: Codec, users: map<nat, User>, cookies: map<string, string>): (r: Result<PublicUser>)
    ensures r.Err? <==> CurrentUser(codec, users, cookies).Err?
    ensures r.Err? ==> r.status == 401
    ensures CurrentUser(codec, users, cookies).Err? ==>
              r == Err(CurrentUser(codec, users, cookies).status, CurrentUser(codec, users, cookies).detail)
    ensures CurrentUser(codec, users, cookies).Ok? ==>
              r == Ok(ToPublic(CurrentUser(codec, users, cookies).value))
    ensures r.Ok? ==> exists u :: u in users.Values && r.value == ToPublic(u)
  {
    match CurrentUser(codec, users, cookies)
    case Err(status, detail) => Err(status, detail)
    case Ok(u) => Ok(ToPublic(u))
  }
}
