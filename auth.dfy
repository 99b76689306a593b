/** The identity service: sign-up, sign-in and resolution of a user id to
    its stored record, over an in-memory user table keyed by id.

    The password hasher and the token signer are libraries the service calls;
    here they are a `Crypto` value handed to the service, of which only one
    law is assumed: a password verifies against any hash made of it. */
module AuthModule {
  import opened Wrappers
  import opened Exceptions

  type Id = string
  type Digest = string
  type Token = string
  /** The random salt the hasher draws on every call. */
  type Salt = nat

  /** A stored user record. */
  datatype User = User(id: Id, email: string, password: Digest, name: string, isActive: bool)

  /** The user as every sign-up and sign-in response shows it. */
  datatype PublicUser = PublicUser(id: Id, email: string, name: string)

  /** The user as `validateUser` and `getCurrentUser` return it: the stored
      record without its password. */
  datatype UserWithoutPassword = UserWithoutPassword(id: Id, email: string, name: string, isActive: bool)

  /** The claims the access token is signed over. */
  datatype Payload = Payload(email: string, sub: Id)

  datatype AuthResponse = AuthResponse(accessToken: Token, user: PublicUser)

  /** The hashing and signing libraries: `hash` is the salted one-way hash,
      `compare` checks a plaintext against a stored hash, `sign` issues a
      token for a payload. */
  datatype Crypto = Crypto(
    hash: (string, Salt) -> Digest,
    compare: (string, Digest) -> bool,
    sign: Payload -> Token)

  /** The one law the service relies on: a password matches every hash of it. */
  ghost predicate Sound(c: Crypto) {
    forall p, s :: c.compare(p, c.hash(p, s))
  }

  const DuplicateEmail := "User with this email already exists"
  const InvalidCredentials := "Invalid credentials"
  const UserNotFound := "User not found"

  type UserTable = map<Id, User>

  /** Every record is stored under its own id, and no two records share an email. */
  ghost predicate WellFormed(users: UserTable) {
    && (forall id :: id in users ==> users[id].id == id)
    && (forall a, b :: a in users && b in users && users[a].email == users[b].email ==> a == b)
  }

  predicate EmailTaken(users: UserTable, email: string) {
    exists id :: id in users && users[id].email == email
  }

  function PublicView(u: User): PublicUser {
    PublicUser(u.id, u.email, u.name)
  }

  function WithoutPassword(u: User): UserWithoutPassword {
    UserWithoutPassword(u.id, u.email, u.name, u.isActive)
  }

  /** The response both sign-up and sign-in build for a user: a token over
      that user's email and id, and the public view of the user. */
  function Respond(c: Crypto, u: User): AuthResponse {
    AuthResponse(c.sign(Payload(u.email, u.id)), PublicView(u))
  }

  /** The repository lookup `findOne({ where: { email } })`. */
  function FindByEmail(users: UserTable, email: string): (r: Option<User>)
    requires WellFormed(users)
    ensures r.Some? <==> EmailTaken(users, email)
    ensures r.Some? ==> r.value.id in users && users[r.value.id] == r.value && r.value.email == email
  {
    if EmailTaken(users, email) then
      var id :| id in users && users[id].email == email;
      Some(users[id])
    else
      None
  }

  /** `signIn`: an unknown email and a wrong password fail with the very same
      exception; on success the token is bound to the matched user. */
  function SignIn(users: UserTable, c: Crypto, email: string, password: string): (r: Result<AuthResponse, HttpException>)
    requires WellFormed(users)
    ensures r.Failure? ==> r.error == Unauthorized(InvalidCredentials)
    ensures r.Success? <==>
      exists id :: id in users && users[id].email == email && c.compare(password, users[id].password)
    ensures r.Success? ==>
      && r.value.user.id in users
      && users[r.value.user.id].email == email
      && r.value.user == PublicUser(r.value.user.id, email, users[r.value.user.id].name)
      && r.value.accessToken == c.sign(Payload(email, r.value.user.id))
  {
    match FindByEmail(users, email)
    case None => Failure(Unauthorized(InvalidCredentials))
    case Some(user) =>
      if !c.compare(password, user.password) then Failure(Unauthorized(InvalidCredentials))
      else Success(Respond(c, user))
  }

  /** `validateUser`: null exactly when no user has the id; otherwise the
      stored record with every field but the password. */
  function ValidateUser(users: UserTable, userId: Id): (r: Option<UserWithoutPassword>)
    requires WellFormed(users)
    ensures r.None? <==> userId !in users
    ensures r.Some? ==>
      && r.value.id == userId
      && r.value.email == users[userId].email
      && r.value.name == users[userId].name
      && r.value.isActive == users[userId].isActive
  {
    if userId in users then Some(WithoutPassword(users[userId])) else None
  }

  /** `getCurrentUser`: throws exactly when `validateUser` finds nobody. */
  function GetCurrentUser(users: UserTable, userId: Id): (r: Result<UserWithoutPassword, HttpException>)
    requires WellFormed(users)
    ensures r.Failure? <==> ValidateUser(users, userId).None?
    ensures r.Failure? ==> r.error == Unauthorized(UserNotFound)
    ensures r.Success? ==> ValidateUser(users, userId) == Some(r.value)
  {
    match ValidateUser(users, userId)
    case None => Failure(Unauthorized(UserNotFound))
    case Some(user) => Success(user)
  }

  /** Inserting a user with a fresh id and an unused email keeps the table
      well formed, and the new user can then sign in with the password whose
      hash is stored. */
  lemma SignUpEnablesSignIn(users: UserTable, c: Crypto, id: Id, email: string, password: string, name: string, salt: Salt)
    requires WellFormed(users) && Sound(c)
    requires id !in users && !EmailTaken(users, email)
    ensures WellFormed(users[id := User(id, email, c.hash(password, salt), name, true)])
    ensures SignIn(users[id := User(id, email, c.hash(password, salt), name, true)], c, email, password)
         == Success(AuthResponse(c.sign(Payload(email, id)), PublicUser(id, email, name)))
  {
    var user := User(id, email, c.hash(password, salt), name, true);
    var users' := users[id := user];
    forall a, b | a in users' && b in users' && users'[a].email == users'[b].email
      ensures a == b
    {
      if a != id && b != id {
        assert users[a].email == users[b].email;
      }
    }
    assert users'[id].email == email;
    assert FindByEmail(users', email) == Some(user);
  }

  /** The two sign-in failures, unknown email and wrong password, cannot be
      told apart by the caller. */
  lemma SignInFailuresIndistinguishable(users: UserTable, c: Crypto, unknown: string, anyPassword: string, known: string, wrongPassword: string)
    requires WellFormed(users)
    requires !EmailTaken(users, unknown)
    requires exists id :: id in users && users[id].email == known && !c.compare(wrongPassword, users[id].password)
    ensures SignIn(users, c, unknown, anyPassword) == SignIn(users, c, known, wrongPassword)
  {
  }

  /** What a successful sign-in returns is enough to resolve the user again:
      the token's subject is an id that `getCurrentUser` maps to the same
      user. */
  lemma SignInSubjectResolves(users: UserTable, c: Crypto, email: string, password: string)
    requires WellFormed(users)
    requires SignIn(users, c, email, password).Success?
    ensures var out := SignIn(users, c, email, password).value;
      && GetCurrentUser(users, out.user.id).Success?
      && GetCurrentUser(users, out.user.id).value.id == out.user.id
      && GetCurrentUser(users, out.user.id).value.email == out.user.email
      && GetCurrentUser(users, out.user.id).value.name == out.user.name
  {
  }

  /** No response depends on the stored password: replacing one user's hash
      changes neither its lookup by id nor its public view. */
  lemma ResponsesIgnorePassword(users: UserTable, id: Id, d: Digest, c: Crypto)
    requires WellFormed(users) && id in users
    ensures WellFormed(users[id := users[id].(password := d)])
    ensures forall x :: ValidateUser(users[id := users[id].(password := d)], x) == ValidateUser(users, x)
    ensures Respond(c, users[id].(password := d)) == Respond(c, users[id])
  {
  }

  class AuthService {
    /** The user repository. */
    var users: UserTable
    const crypto: Crypto

    ghost predicate Valid()
      reads this
    {
      WellFormed(users) && Sound(crypto)
    }

    constructor (users: UserTable, crypto: Crypto)
      requires WellFormed(users) && Sound(crypto)
      ensures Valid()
      ensures this.users == users && this.crypto == crypto
    {
      this.users := users;
      this.crypto := crypto;
    }

    /** `signUp`: refuses a registered email and leaves the table alone;
        otherwise stores exactly one new active user under the fresh id with
        the hash of the password, and the same email and password then sign in. */
    method SignUp(email: string, password: string, name: string, id: Id, salt: Salt)
      returns (r: Result<AuthResponse, HttpException>)
      requires Valid()
      requires id !in users  // randomUUID() hands out an unused id
      modifies this
      ensures Valid()
      ensures EmailTaken(old(users), email) ==> r == Failure(Conflict(DuplicateEmail)) && users == old(users)
      ensures !EmailTaken(old(users), email) ==>
        && users == old(users)[id := User(id, email, crypto.hash(password, salt), name, true)]
        && r == Success(AuthResponse(crypto.sign(Payload(email, id)), PublicUser(id, email, name)))
      ensures r.Success? ==> SignIn(users, crypto, email, password) == r
    {
      var existing := FindByEmail(users, email);
      if existing.Some? {
        return Failure(Conflict(DuplicateEmail));
      }
      var hashedPassword := crypto.hash(password, salt);
      var user := User(id, email, hashedPassword, name, true);
      SignUpEnablesSignIn(users, crypto, id, email, password, name, salt);
      users := users[id := user];
      r := Success(Respond(crypto, user));
    }
  }
}
