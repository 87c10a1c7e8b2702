/**
 * The client-side session: the signed-in user and token, mirrored in
 * browser storage under "stargram_auth" so that a reload restores them.
 * Browser storage holds text; what matters about that text is whether it is
 * blank, something `JSON.parse` rejects, or the `JSON.stringify` of a value.
 */
module AuthSession {
  import opened Wrappers
  import opened JsValue

  const AuthStorageKey := "stargram_auth"
  const RegisterFailed := "Erro ao cadastrar."
  const LoginFailed := "Usuário ou senha inválidos."

  /**
   * A stored string: empty, not JSON, or `JSON.stringify(v)` of a value
   * other than `undefined` (which parses back as `Jsonify(v)`).
   */
  datatype StoredText = Blank | Garbled | JsonOf(v: Js)

  /** The provider's state: `user`, `token`, `loading` and browser storage. */
  datatype Session = Session(user: Js, token: Js, loading: bool, storage: map<string, StoredText>)

  /**
   * `logged: !!user && !!token`: both are present, and a token string must
   * not be empty.
   */
  function Logged(s: Session): (b: bool)
    ensures b ==> !Nullish(s.user) && !Nullish(s.token)
    ensures s.user.Obj? && s.token.Str? ==> (b <==> s.token.s != "")
  {
    Truthy(s.user) && Truthy(s.token)
  }

  /** The state before the start-up effect has run. */
  function Initial(storage: map<string, StoredText>): (r: Session)
    ensures !Logged(r) && r.loading && r.storage == storage
  {
    Session(Null, Null, true, storage)
  }

  /** `JSON.parse(text)` of a stored string that is not blank. */
  function ParseStored(t: StoredText): (r: Option<Js>)
    requires !t.Blank?
    ensures r.Some? <==> t.JsonOf? && !t.v.Undefined?
    ensures r.Some? ==> r.value == Jsonify(t.v) && IsJson(r.value)
  {
    match t
    case Garbled => None
    case JsonOf(v) =>
      if v.Undefined? then None
      else
        JsonifyIsJson(v);
        Some(Jsonify(v))
  }

  /**
   * The start-up effect: take user and token from the saved JSON; ignore
   * nothing saved, a parse error, or saved `null` (reading a property of it
   * throws, and the error is swallowed). Loading ends in every case.
   */
  function Restore(s: Session): (r: Session)
    ensures !r.loading && r.storage == s.storage
    ensures r.user != s.user || r.token != s.token ==>
      AuthStorageKey in s.storage && s.storage[AuthStorageKey].JsonOf?
    ensures AuthStorageKey in s.storage && s.storage[AuthStorageKey].JsonOf? ==>
      var parsed := Jsonify(s.storage[AuthStorageKey].v);
      && (Nullish(parsed) ==> r.user == s.user && r.token == s.token)
      && (!Nullish(parsed) ==> r.user == Prop(parsed, "user") && r.token == Prop(parsed, "token"))
  {
    var saved := if AuthStorageKey in s.storage then s.storage[AuthStorageKey] else Blank;
    if saved.Blank? then s.(loading := false)
    else
      match ParseStored(saved)
      case None => s.(loading := false)
      case Some(parsed) =>
        if Nullish(parsed) then s.(loading := false)
        else s.(user := Prop(parsed, "user"), token := Prop(parsed, "token"), loading := false)
  }

  /** The object `persistAuth` serialises. */
  function AuthRecord(user: Js, token: Js): Js {
    Obj(map["user" := user, "token" := token])
  }

  /** `persistAuth(nextUser, nextToken)`: set both and store them together. */
  function PersistAuth(s: Session, user: Js, token: Js): (r: Session)
    ensures r.user == user && r.token == token && r.loading == s.loading
    ensures AuthStorageKey in r.storage && r.storage[AuthStorageKey] == JsonOf(AuthRecord(user, token))
    ensures forall k :: k != AuthStorageKey ==> (k in r.storage <==> k in s.storage)
    ensures forall k :: k != AuthStorageKey && k in s.storage ==> r.storage[k] == s.storage[k]
  {
    s.(user := user, token := token, storage := s.storage[AuthStorageKey := JsonOf(AuthRecord(user, token))])
  }

  /** `logout()`: forget user and token and remove the saved copy. */
  function Logout(s: Session): (r: Session)
    ensures !Logged(r)
    ensures r.user == Null && r.token == Null
    ensures AuthStorageKey !in r.storage
    ensures forall k :: k != AuthStorageKey ==> (k in r.storage <==> k in s.storage)
    ensures forall k :: k != AuthStorageKey && k in s.storage ==> r.storage[k] == s.storage[k]
    ensures r.loading == s.loading
  {
    s.(user := Null, token := Null, storage := s.storage - {AuthStorageKey})
  }

  /**
   * What survives a reload: a property that was `undefined` disappears, the
   * others come back as they were.
   */
  lemma {:induction false} RestoreAfterPersist(s: Session, user: Js, token: Js)
    ensures var saved := PersistAuth(s, user, token).storage;
      var r := Restore(Initial(saved));
      && r.user == Jsonify(user)
      && r.token == Jsonify(token)
      && !r.loading
  {
    var saved := PersistAuth(s, user, token).storage;
    var rec := AuthRecord(user, token);
    var parsed := Jsonify(rec);
    assert parsed.Obj?;
    assert user.Undefined? ==> "user" !in parsed.fields;
    assert !user.Undefined? ==> "user" in parsed.fields && parsed.fields["user"] == Jsonify(user);
    assert token.Undefined? ==> "token" !in parsed.fields;
    assert !token.Undefined? ==> "token" in parsed.fields && parsed.fields["token"] == Jsonify(token);
  }

  /** JSON user and token, as the server sends them, are restored exactly after a reload. */
  lemma ReloadKeepsSession(s: Session, user: Js, token: Js)
    requires IsJson(user) && IsJson(token)
    ensures var r := Restore(Initial(PersistAuth(s, user, token).storage));
      r.user == user && r.token == token && (Logged(r) <==> Logged(PersistAuth(s, user, token)))
  {
    RestoreAfterPersist(s, user, token);
    JsonifyKeepsJson(user);
    JsonifyKeepsJson(token);
  }

  /** After logging out a reload restores nobody. */
  lemma ReloadAfterLogout(s: Session)
    ensures !Logged(Restore(Initial(Logout(s).storage)))
  {
  }

  /** The part of a fetch `Response` the provider reads. */
  datatype Response = Response(ok: bool, text: string, json: Option<Js>)

  /** Why `register` or `login` rejected: the thrown message, or a body that is not JSON or is `null`. */
  datatype AuthFailure = Rejected(message: string) | UnreadableBody

  datatype Attempt = Attempt(session: Session, failure: Option<AuthFailure>)

  /** `{ id: data.id, userName: data.userName, email: data.email }` */
  function UserOf(data: Js): (u: Js)
    requires !Nullish(data)
    ensures u.Obj? && u.fields.Keys == {"id", "userName", "email"}
    ensures forall k :: k in u.fields ==> u.fields[k] == Prop(data, k)
  {
    Obj(map["id" := Prop(data, "id"), "userName" := Prop(data, "userName"), "email" := Prop(data, "email")])
  }

  /**
   * The shared body of `register` and `login`: a non-ok response throws
   * its text (or the default message) and changes nothing; otherwise the
   * user and token of the JSON body are persisted.
   */
  function Authenticate(s: Session, res: Response, defaultMessage: string): (r: Attempt)
    ensures !res.ok ==> r == Attempt(s, Some(Rejected(if res.text != "" then res.text else defaultMessage)))
    ensures res.ok && (res.json.None? || Nullish(res.json.value)) ==> r == Attempt(s, Some(UnreadableBody))
    ensures r.failure.Some? ==> r.session == s
    ensures r.failure.None? <==> res.ok && res.json.Some? && !Nullish(res.json.value)
    ensures r.failure.None? ==> r.session == PersistAuth(s, UserOf(res.json.value), Prop(res.json.value, "token"))
  {
    if !res.ok then Attempt(s, Some(Rejected(if res.text != "" then res.text else defaultMessage)))
    else
      match res.json
      case None => Attempt(s, Some(UnreadableBody))
      case Some(data) =>
        if Nullish(data) then Attempt(s, Some(UnreadableBody))
        else Attempt(PersistAuth(s, UserOf(data), Prop(data, "token")), None)
  }

  /** `register(...)` */
  function Register(s: Session, res: Response): (r: Attempt)
    ensures !res.ok && res.text == "" ==> r == Attempt(s, Some(Rejected(RegisterFailed)))
    ensures !res.ok && res.text != "" ==> r == Attempt(s, Some(Rejected(res.text)))
    ensures res.ok && res.json.Some? && !Nullish(res.json.value) ==>
      r.failure.None? && (Logged(r.session) <==> Truthy(Prop(res.json.value, "token")))
  {
    Authenticate(s, res, RegisterFailed)
  }

  /** `login(...)` */
  function Login(s: Session, res: Response): (r: Attempt)
    ensures !res.ok && res.text == "" ==> r == Attempt(s, Some(Rejected(LoginFailed)))
    ensures !res.ok && res.text != "" ==> r == Attempt(s, Some(Rejected(res.text)))
    ensures res.ok && res.json.Some? && !Nullish(res.json.value) ==>
      r.failure.None? && (Logged(r.session) <==> Truthy(Prop(res.json.value, "token")))
  {
    Authenticate(s, res, LoginFailed)
  }

  /** A successful sign-in with a truthy token logs the user in, and a reload keeps them logged in. */
  lemma SignInLogsIn(s: Session, res: Response, defaultMessage: string)
    requires res.ok && res.json.Some? && res.json.value.Obj?
    requires Truthy(Prop(res.json.value, "token"))
    ensures var r := Authenticate(s, res, defaultMessage);
      Logged(r.session) && Logged(Restore(Initial(r.session.storage)))
  {
    var data := res.json.value;
    var u := UserOf(data);
    var t := Prop(data, "token");
    RestoreAfterPersist(s, u, t);
  }
}
