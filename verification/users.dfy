/**
 * The user resolvers: register (validate, refuse a taken username, store the user with a
 * hashed password, issue a token) and login (validate, look the user up, compare the password,
 * issue a token). bcrypt, jsonwebtoken and the input validators are passed in as functions.
 */
module Users {
  import opened Outcomes
  import opened Domain
  import opened Auth

  /** The cryptographic calls: bcrypt's hash and compare, and jsonwebtoken's sign and verify. */
  datatype Crypto = Crypto(
    hash: (string, nat) -> string,     // bcrypt.hash(password, saltRounds)
    compare: (string, string) -> bool, // bcrypt.compare(password, storedHash)
    sign: (Claims, string, string) -> string, // jwt.sign(payload, SECRET_KEY, { expiresIn }) at an issue time
    verify: string -> Option<Claims>)  // jwt.verify(token, SECRET_KEY); None where it throws

  /** What a validator returns: whether the input is acceptable, and the field errors if not. */
  datatype Validation = Validation(valid: bool, errors: FieldErrors)

  /** validateRegisterInput(username, email, password, confirmPassword) and validateLoginInput(username, password). */
  datatype Validators = Validators(
    register: (string, string, string, string) -> Validation,
    login: (string, string) -> Validation)

  /** The bcrypt cost factor register hashes with. */
  const SaltRounds: nat := 12

  /** The lifetime of an issued token. */
  const TokenExpiry: string := "1h"

  /** What login and register return: the stored user and a fresh token. */
  datatype AuthPayload = AuthPayload(user: User, token: string)

  /** The payload a token for `u` carries: its id, email and username, and nothing else. */
  function TokenClaims(u: User): Claims {
    Claims(u.id, u.email, u.username)
  }

  /**
   * generateToken: the user's id, email and username signed with a one-hour expiry. jwt.sign
   * stamps the issue time from the clock, so a token depends on when it was issued.
   */
  function GenerateToken(crypto: Crypto, u: User, now: string): (token: string)
    ensures token == crypto.sign(Claims(u.id, u.email, u.username), "1h", now)
  {
    crypto.sign(TokenClaims(u), TokenExpiry, now)
  }

  /**
   * A token from generateToken, sent back as `Bearer <token>`, authenticates as exactly the
   * user it was issued to, provided verify accepts what sign produced and the token has no space.
   */
  lemma IssuedTokenAuthenticates(crypto: Crypto, u: User, now: string)
    requires crypto.verify(GenerateToken(crypto, u, now)) == Some(TokenClaims(u))
    requires GenerateToken(crypto, u, now) != "" && ' ' !in GenerateToken(crypto, u, now)
    ensures CheckAuth(Some(BearerPrefix + GenerateToken(crypto, u, now)), crypto.verify)
            == Success(Claims(u.id, u.email, u.username))
  {
    WellFormedHeaderAuthenticates(GenerateToken(crypto, u, now), crypto.verify, TokenClaims(u));
  }

  /** `User.findOne({ username })`: the first stored user with that username. */
  function FindByUsername(users: seq<User>, username: string): (r: Option<User>)
    ensures r.Some? ==> r.value in users && r.value.username == username
    ensures r.None? <==> forall i :: 0 <= i < |users| ==> users[i].username != username
  {
    if users == [] then None
    else if users[0].username == username then Some(users[0])
    else
      var r := FindByUsername(users[1..], username);
      assert forall i :: 1 <= i < |users| ==> users[i] == users[1..][i - 1];
      r
  }

  /** No two stored users share a username. */
  predicate UniqueUsernames(users: seq<User>) {
    forall i, j :: 0 <= i < j < |users| ==> users[i].username != users[j].username
  }

  /** No two stored users share an id. */
  predicate UniqueIds(users: seq<User>) {
    forall i, j :: 0 <= i < j < |users| ==> users[i].id != users[j].id
  }

  /** Where usernames are unique, looking up a stored user's username finds that very user. */
  lemma {:induction false} FindsStoredUser(users: seq<User>, u: User)
    requires UniqueUsernames(users) && u in users
    ensures FindByUsername(users, u.username) == Some(u)
  {
    if users[0] != u {
      assert users[0].username != u.username by {
        var m :| 0 <= m < |users| && users[m] == u;
      }
      var rest := users[1..];
      assert u in rest by {
        var m :| 0 <= m < |users| && users[m] == u;
        assert rest[m - 1] == u;
      }
      forall i, j | 0 <= i < j < |rest|
        ensures rest[i].username != rest[j].username
      {
        assert rest[i] == users[i + 1] && rest[j] == users[j + 1];
      }
      FindsStoredUser(rest, u);
    }
  }

  /** The user collection. */
  class UserStore {
    var users: seq<User>

    /** Usernames are unique, as register refuses a taken one, and so are the generated ids. */
    ghost predicate Valid()
      reads this
    {
      UniqueUsernames(users) && UniqueIds(users)
    }

    constructor ()
      ensures Valid() && users == []
    {
      users := [];
    }

    /**
     * register: invalid input fails with the validator's errors; a taken username fails with a
     * `username` field error; otherwise one user with the given username and email and the
     * bcrypt hash of the password is stored, and a token for that user is returned.
     */
    method Register(crypto: Crypto, validators: Validators, username: string, email: string,
                    password: string, confirmPassword: string, newId: Id, now: string)
      returns (r: Result<AuthPayload, Error>)
      requires Valid()
      requires forall i :: 0 <= i < |users| ==> users[i].id != newId
      modifies this
      ensures Valid()
      ensures var v := validators.register(username, email, password, confirmPassword);
        && (!v.valid ==> r == Failure(InvalidInput(v.errors)))
        && (v.valid && FindByUsername(old(users), username).Some? ==>
              r == Failure(UsernameTaken(map["username" := "This username is taken"])))
        && (r.Success? <==> v.valid && FindByUsername(old(users), username).None?)
      ensures r.Success? ==>
        && r.value.user == User(newId, username, crypto.hash(password, SaltRounds), email, now)
        && r.value.token == GenerateToken(crypto, r.value.user, now)
      ensures r.Success? ==> users == old(users) + [r.value.user]
      ensures r.Failure? ==> users == old(users)
    {
      var v := validators.register(username, email, password, confirmPassword);
      if !v.valid {
        return Failure(InvalidInput(v.errors));
      }
      if FindByUsername(users, username).Some? {
        return Failure(UsernameTaken(map["username" := "This username is taken"]));
      }
      var hashed := crypto.hash(password, SaltRounds);
      var user := User(newId, username, hashed, email, now);
      users := users + [user];
      var token := GenerateToken(crypto, user, now);
      r := Success(AuthPayload(user, token));
    }

    /**
     * login: invalid input fails before any lookup; an unknown username fails with
     * `errors.general = 'User not found'`; a password that does not match the stored hash fails
     * with `errors.general = 'Wrong credentials'`; otherwise the user and a fresh token.
     */
    function Login(crypto: Crypto, validators: Validators, username: string, password: string, now: string)
      : (r: Result<AuthPayload, Error>)
      reads this
      ensures var v := validators.login(username, password);
        && (!v.valid ==> r == Failure(InvalidInput(v.errors)))
        && (v.valid && FindByUsername(users, username).None? ==>
              r == Failure(UserNotFound(v.errors["general" := "User not found"])))
        && (v.valid && FindByUsername(users, username).Some? &&
            !crypto.compare(password, FindByUsername(users, username).value.password) ==>
              r == Failure(WrongCredentials(v.errors["general" := "Wrong credentials"])))
      ensures r.Success? <==>
        exists u :: FindByUsername(users, username) == Some(u) && validators.login(username, password).valid
                    && crypto.compare(password, u.password)
      ensures r.Success? ==>
        && r.value.user in users && r.value.user.username == username
        && r.value.token == GenerateToken(crypto, r.value.user, now)
    {
      var v := validators.login(username, password);
      if !v.valid then Failure(InvalidInput(v.errors))
      else match FindByUsername(users, username)
        case None => Failure(UserNotFound(v.errors["general" := "User not found"]))
        case Some(u) =>
          if !crypto.compare(password, u.password) then
            Failure(WrongCredentials(v.errors["general" := "Wrong credentials"]))
          else
            Success(AuthPayload(u, GenerateToken(crypto, u, now)))
    }
  }

  /**
   * A registered user logs in with the password they registered with: where bcrypt's compare
   * accepts a password against its own hash and the login input is valid, login finds the
   * stored user and issues its token.
   */
  lemma RegisteredUserLogsIn(store: UserStore, crypto: Crypto, validators: Validators, u: User,
                             password: string, now: string)
    requires store.Valid() && u in store.users
    requires u.password == crypto.hash(password, SaltRounds)
    requires crypto.compare(password, crypto.hash(password, SaltRounds))
    requires validators.login(u.username, password).valid
    ensures store.Login(crypto, validators, u.username, password, now)
            == Success(AuthPayload(u, GenerateToken(crypto, u, now)))
  {
    FindsStoredUser(store.users, u);
  }

  /** Registering keeps usernames unique and makes the new user the one a lookup of its name finds. */
  lemma RegisteredUserFound(users: seq<User>, u: User)
    requires UniqueUsernames(users) && FindByUsername(users, u.username).None?
    ensures UniqueUsernames(users + [u])
    ensures FindByUsername(users + [u], u.username) == Some(u)
  {
    FindsStoredUser(users + [u], u);
  }
}
