/**
 * The account endpoints of the backend: registration, login with email and
 * password, the Google callback that finds or creates an account, and the
 * session token issued by all three. The database, the password hasher, the
 * token serialiser, the configuration and the clock are passed in.
 */
module AuthController {
  import opened Wrappers
  import opened Text
  import opened UserStore
  import opened UserNames

  /** What the password hasher reports when checking a password against a stored hash. */
  datatype PasswordCheck = Failed | Succeeded | SucceededRehashNeeded

  /**
   * The opaque collaborators of the controller: `HashPassword`,
   * `VerifyHashedPassword` (which receives the stored hash, absent for
   * accounts created through Google), the token serialiser `WriteToken`,
   * and the current time in seconds.
   */
  datatype Services = Services(
    hash: string -> string,
    verify: (Option<string>, string) -> PasswordCheck,
    writeToken: Jwt -> string,
    now: int)

  /** The `Jwt` section of the configuration; any entry may be missing. */
  datatype JwtSettings = JwtSettings(key: Option<string>, issuer: Option<string>, audience: Option<string>)

  datatype Claim = Claim(claimType: string, value: string)

  /** The signed token before serialisation. */
  datatype Jwt = Jwt(
    issuer: Option<string>,
    audience: Option<string>,
    claims: seq<Claim>,
    expires: int,
    algorithm: string,
    signingKey: string)

  /** The body of a successful login or registration. */
  datatype AuthResponse = AuthResponse(token: string, id: int, userName: string, email: string)

  /** Why a request ended in HTTP 500: a save the indexes reject, or no usable signing key. */
  datatype Fault = SaveRejected | SigningKeyMissing

  datatype Reply =
    | Ok(body: AuthResponse)
    | BadRequest(message: string)
    | Unauthorized(message: string)
    | Redirect(url: string)
    | ServerError(fault: Fault)

  /** The database after a request, and the reply sent. */
  datatype Outcome = Outcome(db: Db, reply: Reply)

  const InvalidCredentials := "Usuário ou senha inválidos."
  const EmailInUse := "Já existe um usuário com esse e-mail."
  const GoogleFailed := "Falha ao autenticar com o Google."
  const GoogleEmailMissing := "Não foi possível obter o e-mail do Google."
  const FrontendCallback := "http://localhost:5173/auth/callback"

  /** `ClaimTypes.Email` */
  const EmailClaimType := "http://schemas.xmlsoap.org/ws/2005/05/identity/claims/emailaddress"

  /** `SecurityAlgorithms.HmacSha256` */
  const HmacSha256 := "http://www.w3.org/2001/04/xmldsig-more#hmac-sha256"

  const TokenLifetimeSeconds := 8 * 3600

  /** The first claim of the given type, as `FindFirst` returns it. */
  function FindClaim(claims: seq<Claim>, claimType: string): (r: Option<string>)
    ensures r.Some? <==> exists i :: 0 <= i < |claims| && claims[i].claimType == claimType
    ensures r.Some? ==> exists i :: 0 <= i < |claims| && claims[i] == Claim(claimType, r.value)
                                  && forall j :: 0 <= j < i ==> claims[j].claimType != claimType
  {
    if |claims| == 0 then None
    else if claims[0].claimType == claimType then Some(claims[0].value)
    else
      var r := FindClaim(claims[1..], claimType);
      assert forall i :: 1 <= i < |claims| ==> claims[i] == claims[1..][i - 1];
      r
  }

  /**
   * `GenerateToken`: an HMAC-SHA256 token carrying the user's id, user name
   * and email, valid for eight hours. Without a key (or with an empty one)
   * building the signing key throws.
   */
  function GenerateToken(user: User, cfg: JwtSettings, now: int): (r: Result<Jwt, Fault>)
    ensures r.Failure? <==> cfg.key.None? || cfg.key.value == ""
    ensures r.Success? ==>
      && r.value.claims == [Claim("id", IntToString(user.id)), Claim("username", user.userName), Claim(EmailClaimType, user.email)]
      && r.value.expires == now + TokenLifetimeSeconds
      && r.value.algorithm == HmacSha256
      && r.value.signingKey == cfg.key.value
      && r.value.issuer == cfg.issuer && r.value.audience == cfg.audience
  {
    match cfg.key
    case None => Failure(SigningKeyMissing)
    case Some(key) =>
      if key == "" then Failure(SigningKeyMissing)
      else
        var claims := [Claim("id", IntToString(user.id)), Claim("username", user.userName), Claim(EmailClaimType, user.email)];
        Success(Jwt(cfg.issuer, cfg.audience, claims, now + TokenLifetimeSeconds, HmacSha256, key))
  }

  /** A reader of the token (such as `Me`) recovers exactly the user's id, user name and email. */
  lemma TokenClaimsRoundTrip(user: User, cfg: JwtSettings, now: int)
    requires GenerateToken(user, cfg, now).Success?
    ensures var claims := GenerateToken(user, cfg, now).value.claims;
      && FindClaim(claims, "id").Some?
      && IsIntText(FindClaim(claims, "id").value)
      && IntValue(FindClaim(claims, "id").value) == user.id
      && FindClaim(claims, "username") == Some(user.userName)
      && FindClaim(claims, EmailClaimType) == Some(user.email)
  {
    IntToStringRoundTrip(user.id);
    var claims := GenerateToken(user, cfg, now).value.claims;
    assert "username" != "id" && EmailClaimType != "id" && EmailClaimType != "username";
    assert claims[1..][1..] == [Claim(EmailClaimType, user.email)];
    assert FindClaim(claims, "id") == Some(IntToString(user.id));
    assert FindClaim(claims, "username") == FindClaim(claims[1..], "username");
    assert FindClaim(claims, EmailClaimType) == FindClaim(claims[1..][1..], EmailClaimType);
  }

  /** The reply for an authenticated user: the token, or a server error when it cannot be signed. */
  function Respond(user: User, svc: Services, cfg: JwtSettings): (r: Reply)
    ensures r.Ok? || r == ServerError(SigningKeyMissing)
    ensures r.Ok? <==> GenerateToken(user, cfg, svc.now).Success?
    ensures r.Ok? ==> r.body == AuthResponse(svc.writeToken(GenerateToken(user, cfg, svc.now).value), user.id, user.userName, user.email)
  {
    match GenerateToken(user, cfg, svc.now)
    case Failure(f) => ServerError(f)
    case Success(jwt) => Ok(AuthResponse(svc.writeToken(jwt), user.id, user.userName, user.email))
  }

  /**
   * `POST /auth/login`: the user with that email, if its stored hash accepts
   * the password. An unknown email and a rejected password get the same
   * reply. Nothing is written.
   */
  function Login(db: Db, svc: Services, cfg: JwtSettings, email: string, password: string): (r: Outcome)
    requires Valid(db)
    ensures r.db == db
    ensures r.reply.Unauthorized? <==>
      !EmailTaken(db, email) || svc.verify(FindByEmail(db, email).value.passwordHash, password) == Failed
    ensures r.reply.Unauthorized? ==> r.reply.message == InvalidCredentials
    ensures r.reply.Ok? ==>
      exists k :: k in db.users && db.users[k].email == email
        && svc.verify(db.users[k].passwordHash, password) != Failed
        && r.reply.body.id == k
        && r.reply.body.userName == db.users[k].userName
        && r.reply.body.email == email
    ensures r.reply.Ok? || r.reply.Unauthorized? || r.reply == ServerError(SigningKeyMissing)
    ensures EmailTaken(db, email) && svc.verify(FindByEmail(db, email).value.passwordHash, password) != Failed ==>
      r.reply == Respond(FindByEmail(db, email).value, svc, cfg)
  {
    match FindByEmail(db, email)
    case None => Outcome(db, Unauthorized(InvalidCredentials))
    case Some(user) =>
      if svc.verify(user.passwordHash, password) == Failed then Outcome(db, Unauthorized(InvalidCredentials))
      else Outcome(db, Respond(user, svc, cfg))
  }

  /** An unknown email and a wrong password cannot be told apart from the reply. */
  lemma LoginFailureIndistinguishable(db: Db, svc: Services, cfg: JwtSettings, email1: string, password1: string, email2: string, password2: string)
    requires Valid(db)
    requires !EmailTaken(db, email1)
    requires EmailTaken(db, email2) && svc.verify(FindByEmail(db, email2).value.passwordHash, password2) == Failed
    ensures Login(db, svc, cfg, email1, password1) == Login(db, svc, cfg, email2, password2)
  {
  }

  /**
   * `POST /auth/register`: refuse a known email; otherwise store a new user
   * with the hashed password. Only the email is checked beforehand: a taken
   * user name makes the save throw. The user stays saved when the token
   * cannot be signed afterwards.
   */
  function Register(db: Db, svc: Services, cfg: JwtSettings, userName: string, email: string, password: string): (r: Outcome)
    requires Valid(db)
    ensures Valid(r.db)
    ensures EmailTaken(db, email) ==> r == Outcome(db, BadRequest(EmailInUse))
    ensures !EmailTaken(db, email) && userName in TakenUserNames(db) ==> r == Outcome(db, ServerError(SaveRejected))
    ensures !EmailTaken(db, email) && userName !in TakenUserNames(db) ==>
      var u := User(db.nextId, userName, email, Some(svc.hash(password)), svc.now);
      && db.nextId !in db.users
      && r.db.users == db.users[u.id := u]
      && r.db.resetTokens == db.resetTokens
      && r.reply == Respond(u, svc, cfg)
  {
    if EmailTaken(db, email) then Outcome(db, BadRequest(EmailInUse))
    else
      match InsertUser(db, userName, email, Some(svc.hash(password)), svc.now)
      case Failure(_) => Outcome(db, ServerError(SaveRejected))
      case Success((db', user)) => Outcome(db', Respond(user, svc, cfg))
  }

  /**
   * A hasher that accepts the hashes it produces lets a user log in with the
   * password just registered, and the login reports the registered account.
   */
  lemma LoginAfterRegister(db: Db, svc: Services, cfg: JwtSettings, userName: string, email: string, password: string)
    requires Valid(db)
    requires !EmailTaken(db, email) && userName !in TakenUserNames(db)
    requires svc.verify(Some(svc.hash(password)), password) != Failed
    requires cfg.key.Some? && cfg.key.value != ""
    ensures var reg := Register(db, svc, cfg, userName, email, password);
      && reg.reply.Ok?
      && Login(reg.db, svc, cfg, email, password).reply.Ok?
      && Login(reg.db, svc, cfg, email, password).reply.body.id == reg.reply.body.id
      && Login(reg.db, svc, cfg, email, password).reply.body.userName == userName
      && Login(reg.db, svc, cfg, email, password).reply.body.email == email
  {
    var reg := Register(db, svc, cfg, userName, email, password);
    var u := User(db.nextId, userName, email, Some(svc.hash(password)), svc.now);
    assert reg.db.users[u.id] == u;
    assert EmailTaken(reg.db, email);
    assert FindByEmail(reg.db, email) == Some(u);
  }

  /** What cookie authentication yields on the Google callback. */
  datatype Principal = Principal(email: Option<string>, identityName: Option<string>)
  datatype Authentication = Authentication(succeeded: bool, principal: Option<Principal>)

  /** `principal.Identity?.Name ?? email?.Split('@')[0]` for a principal with an email. */
  function GoogleName(p: Principal, email: string): (r: string)
    ensures p.identityName.None? ==> BeforeFirst(email, '@', r)
    ensures p.identityName.Some? ==> r == p.identityName.value
  {
    match p.identityName
    case Some(name) => name
    case None =>
      SplitHead(email, '@');
      Split(email, '@')[0]
  }

  /**
   * `GET /auth/google/callback`: fail closed without a successful
   * authentication or without an email; reuse the account with that email,
   * or create one without a password under a fresh user name; then send the
   * browser back to the frontend with the token.
   */
  function GoogleCallback(db: Db, svc: Services, cfg: JwtSettings, auth: Authentication): (r: Outcome)
    requires Valid(db)
    ensures Valid(r.db)
    ensures !auth.succeeded || auth.principal.None? ==> r == Outcome(db, Unauthorized(GoogleFailed))
    ensures auth.succeeded && auth.principal.Some? && (auth.principal.value.email.None? || auth.principal.value.email.value == "") ==>
      r == Outcome(db, BadRequest(GoogleEmailMissing))
    ensures auth.succeeded && auth.principal.Some? && auth.principal.value.email.Some? && auth.principal.value.email.value != "" ==>
      var p := auth.principal.value;
      var email := p.email.value;
      && r.db == ResolveGoogleUser(db, svc.now, email, GoogleName(p, email)).0
      && (EmailTaken(db, email) ==> r.db == db)
      && FindByEmail(r.db, email).Some?
      && var jwt := GenerateToken(FindByEmail(r.db, email).value, cfg, svc.now);
        && (jwt.Success? ==> r.reply == Redirect(FrontendCallback + "?token=" + svc.writeToken(jwt.value)))
        && (jwt.Failure? ==> r.reply == ServerError(SigningKeyMissing))
    ensures r.reply.ServerError? ==> r.reply.fault == SigningKeyMissing
  {
    if !auth.succeeded || auth.principal.None? then Outcome(db, Unauthorized(GoogleFailed))
    else
      var p := auth.principal.value;
      if p.email.None? || p.email.value == "" then Outcome(db, BadRequest(GoogleEmailMissing))
      else
        var email := p.email.value;
        var resolved := ResolveGoogleUser(db, svc.now, email, GoogleName(p, email));
        var (db', user) := resolved;
        FindStoredUser(db', user);
        Outcome(db', match GenerateToken(user, cfg, svc.now)
          case Failure(f) => ServerError(f)
          case Success(jwt) => Redirect(FrontendCallback + "?token=" + svc.writeToken(jwt)))
  }

  /**
   * The account the Google callback signs in: the one with that email, or a
   * new one with no password hash and the first free user name derived from
   * `name`. Both indexes admit the new row, so the save cannot fail.
   */
  function ResolveGoogleUser(db: Db, now: int, email: string, name: string): (r: (Db, User))
    requires Valid(db)
    ensures Valid(r.0)
    ensures r.1.id in r.0.users && r.0.users[r.1.id] == r.1 && r.1.email == email
    ensures FindByEmail(r.0, email) == Some(r.1)
    ensures EmailTaken(db, email) ==> r.0 == db && Some(r.1) == FindByEmail(db, email)
    ensures !EmailTaken(db, email) ==>
      && r.1 == User(db.nextId, UniqueUserName(TakenUserNames(db), name), email, None, now)
      && db.nextId !in db.users
      && r.0.users == db.users[r.1.id := r.1]
      && r.0.resetTokens == db.resetTokens
  {
    match FindByEmail(db, email)
    case Some(user) => (db, user)
    case None =>
      var userName := UniqueUserName(TakenUserNames(db), name);
      match InsertUser(db, userName, email, None, now)
      case Success(saved) =>
        FindStoredUser(saved.0, saved.1);
        saved
      case Failure(_) => assert false; (db, User(0, "", email, None, now))
  }

  /** Signing in through Google a second time with the same principal creates nothing more. */
  lemma GoogleCallbackIdempotent(db: Db, svc: Services, cfg: JwtSettings, auth: Authentication)
    requires Valid(db)
    ensures var r1 := GoogleCallback(db, svc, cfg, auth);
      var r2 := GoogleCallback(r1.db, svc, cfg, auth);
      r2 == r1
  {
    var r1 := GoogleCallback(db, svc, cfg, auth);
    if auth.succeeded && auth.principal.Some? {
      var p := auth.principal.value;
      if p.email.Some? && p.email.value != "" {
        var email := p.email.value;
        var (db1, u1) := ResolveGoogleUser(db, svc.now, email, GoogleName(p, email));
        assert EmailTaken(db1, email);
        var (db2, u2) := ResolveGoogleUser(db1, svc.now, email, GoogleName(p, email));
        assert db2 == db1;
        assert FindByEmail(db1, email) == Some(u1);
        assert u2 == u1;
      }
    }
  }
}
