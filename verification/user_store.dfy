/**
 * The account store behind the backend: the `Users` and
 * `PasswordResetTokens` tables with the unique indexes and the cascading
 * foreign key declared for them, and the effect of saving new rows.
 */
module UserStore {
  import opened Wrappers

  /** A row of `Users`. `passwordHash` is absent for accounts created through Google. */
  datatype User = User(id: int, userName: string, email: string, passwordHash: Option<string>, createdAt: int)

  /** A row of `PasswordResetTokens`, reduced to the columns the schema constrains. */
  datatype ResetToken = ResetToken(userId: int, token: string)

  /**
   * The two tables. Users are keyed by their primary key; `nextId` is the
   * next value of the identity column, which is never reused.
   */
  datatype Db = Db(users: map<int, User>, resetTokens: set<ResetToken>, nextId: int)

  /** What `SaveChanges` throws when a row breaks a unique index or the foreign key. */
  datatype SaveError = ConstraintViolation

  predicate KeysMatchIds(db: Db) {
    forall k :: k in db.users ==> db.users[k].id == k && k < db.nextId
  }

  predicate UniqueEmails(db: Db) {
    forall a, b :: a in db.users && b in db.users && db.users[a].email == db.users[b].email ==> a == b
  }

  predicate UniqueUserNames(db: Db) {
    forall a, b :: a in db.users && b in db.users && db.users[a].userName == db.users[b].userName ==> a == b
  }

  predicate UniqueTokens(db: Db) {
    forall t, u :: t in db.resetTokens && u in db.resetTokens && t.token == u.token ==> t == u
  }

  predicate TokensOwned(db: Db) {
    forall t :: t in db.resetTokens ==> t.userId in db.users
  }

  /**
   * Every state the database can be in: the constraints hold. The next
   * identity value is free, distinct rows differ in id, email and user
   * name, and every reset token belongs to a stored user.
   */
  function Valid(db: Db): (b: bool)
    ensures b ==> db.nextId !in db.users
    ensures b ==> forall a, c :: a in db.users && c in db.users && a != c ==>
      && db.users[a].id != db.users[c].id
      && db.users[a].email != db.users[c].email
      && db.users[a].userName != db.users[c].userName
    ensures b ==> forall t :: t in db.resetTokens ==> t.userId in db.users && db.users[t.userId].id == t.userId
  {
    && KeysMatchIds(db)
    && UniqueEmails(db)
    && UniqueUserNames(db)
    && UniqueTokens(db)
    && TokensOwned(db)
  }

  /** The empty database satisfies every constraint. */
  lemma EmptyValid(nextId: int)
    ensures Valid(Db(map[], {}, nextId))
  {
  }

  predicate EmailTaken(db: Db, email: string) {
    exists k :: k in db.users && db.users[k].email == email
  }

  function TakenUserNames(db: Db): set<string> {
    set k | k in db.users :: db.users[k].userName
  }

  predicate TokenTaken(db: Db, token: string) {
    exists t :: t in db.resetTokens && t.token == token
  }

  /** `Users.FirstOrDefault(u => u.Email == email)`: the unique user with that email, if any. */
  function FindByEmail(db: Db, email: string): (r: Option<User>)
    requires Valid(db)
    ensures r.Some? <==> EmailTaken(db, email)
    ensures r.Some? ==> r.value.id in db.users && db.users[r.value.id] == r.value && r.value.email == email
  {
    if EmailTaken(db, email) then
      var k :| k in db.users && db.users[k].email == email;
      Some(db.users[k])
    else
      None
  }

  /** Emails are unique, so looking up a stored user's email finds that user. */
  lemma FindStoredUser(db: Db, u: User)
    requires Valid(db)
    requires u.id in db.users && db.users[u.id] == u
    ensures FindByEmail(db, u.email) == Some(u)
  {
    assert EmailTaken(db, u.email);
    var found := FindByEmail(db, u.email).value;
    assert db.users[found.id].email == db.users[u.id].email;
  }

  /**
   * `Users.Add(user)` followed by `SaveChanges`: the identity column assigns
   * the id; a duplicate email or user name is rejected by the unique indexes
   * and nothing is stored.
   */
  function InsertUser(db: Db, userName: string, email: string, passwordHash: Option<string>, createdAt: int)
    : (r: Result<(Db, User), SaveError>)
    requires Valid(db)
    ensures r.Failure? <==> EmailTaken(db, email) || userName in TakenUserNames(db)
    ensures r.Success? ==>
      var (db', u) := r.value;
      && u == User(db.nextId, userName, email, passwordHash, createdAt)
      && db.nextId !in db.users
      && db'.users == db.users[u.id := u]
      && db'.resetTokens == db.resetTokens
      && db'.nextId > db.nextId
      && Valid(db')
  {
    if EmailTaken(db, email) || userName in TakenUserNames(db) then
      Failure(ConstraintViolation)
    else
      var u := User(db.nextId, userName, email, passwordHash, createdAt);
      Success((Db(db.users[u.id := u], db.resetTokens, db.nextId + 1), u))
  }

  /**
   * Saving a reset token: the foreign key demands an existing user and the
   * unique index a token string not stored yet.
   */
  function InsertResetToken(db: Db, userId: int, token: string): (r: Result<Db, SaveError>)
    requires Valid(db)
    ensures r.Failure? <==> userId !in db.users || TokenTaken(db, token)
    ensures r.Success? ==>
      && r.value.resetTokens == db.resetTokens + {ResetToken(userId, token)}
      && r.value.users == db.users
      && Valid(r.value)
  {
    if userId !in db.users || TokenTaken(db, token) then
      Failure(ConstraintViolation)
    else
      Success(db.(resetTokens := db.resetTokens + {ResetToken(userId, token)}))
  }

  /** Deleting a user cascades to the reset tokens that reference it. */
  function DeleteUser(db: Db, id: int): (r: Db)
    requires Valid(db)
    ensures id !in r.users
    ensures forall k :: k in r.users <==> k in db.users && k != id
    ensures forall k :: k in r.users ==> r.users[k] == db.users[k]
    ensures forall t :: t in r.resetTokens <==> t in db.resetTokens && t.userId != id
    ensures Valid(r)
  {
    Db(db.users - {id}, (set t | t in db.resetTokens && t.userId != id), db.nextId)
  }
}
