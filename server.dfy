/**
 * The three request handlers of the authentication server: `/login`,
 * `/forgot-password/check` and `/forgot-password/reset`.  Each handler is a
 * fixed sequence of early returns over one query of the `users` table; the
 * reset handler then issues one UPDATE.  Whether each query reaches the
 * store is a parameter, and so are bcrypt, the signing secret and the clock.
 */
module Server {
  import opened Wrappers
  import opened Json
  import Hashing
  import Jwt
  import opened Users

  /** The single shared secret that gates a password reset. */
  const AdminCode := "667"

  const PasswordRequired := "Password is required"
  const InvalidCredentials := "Invalid credentials"
  const NoPasswordHash := "User account error - no password hash"
  const InternalError := "Internal server error"
  const UsernameNotFound := "Username doesn't exist"
  const WrongAdminCode := "Wrong admin code"
  const EligibleForReset := "User found, admin code verified."
  const PasswordUpdated := "Password updated successfully!"

  /** An HTTP response: its status code and its JSON body. */
  datatype Response<B> = Response(status: int, body: B)

  /** `/login` answers `{token}` or `{message}`. */
  datatype LoginBody = TokenBody(token: Jwt.Token) | Message(message: string)

  /** The reset endpoints answer `{success, message}`. */
  datatype ResetBody = Outcome(success: bool, message: string)

  /** What `/login` uses besides the table: bcrypt, `JWT_SECRET`, and the clock in seconds. */
  datatype Env = Env(hasher: Hashing.Hasher, jwtSecret: Option<string>, now: int)

  /** The token `/login` hands to the owner of `row`. */
  function TokenFor(env: Env, row: Row): Jwt.Token
    requires Jwt.UsableSecret(env.jwtSecret)
  {
    Jwt.Sign(env.jwtSecret, row.id, row.name, env.now).value
  }

  /** The SELECT returns rows: the store is reachable and accepts the bound name. */
  predicate SelectRuns(reachable: bool, username: Value)
  {
    reachable && Bindable(QueryText(username))
  }

  /**
   * The steps of POST /login after the lookup, for the first row with the
   * name: a falsy stored hash is an account error; bcrypt rejects a
   * password that is not a string; a mismatch is the same answer as an
   * unknown user; otherwise `jwt.sign` issues the token, unless it rejects
   * the secret.
   */
  function Authenticate(env: Env, user: Row, password: Value): (r: Response<LoginBody>)
    ensures !HasHash(user) ==> r == Response(500, Message(NoPasswordHash))
    ensures HasHash(user) && !password.Str? ==> r == Response(500, Message(InternalError))
    ensures HasHash(user) && password.Str? && !env.hasher.compare(password.s, user.passwordHash.value) ==>
      r == Response(400, Message(InvalidCredentials))
    ensures r.status == 200 <==>
      HasHash(user) && password.Str? && env.hasher.compare(password.s, user.passwordHash.value) &&
      Jwt.UsableSecret(env.jwtSecret)
    ensures (HasHash(user) && password.Str? && env.hasher.compare(password.s, user.passwordHash.value) &&
             !Jwt.UsableSecret(env.jwtSecret)) ==>
      r == Response(500, Message(InternalError))
    ensures r.status == 200 ==> r.body == TokenBody(TokenFor(env, user))
    ensures r.status != 200 ==> r.body.Message?
  {
    if !HasHash(user) then Response(500, Message(NoPasswordHash))
    else if !password.Str? then Response(500, Message(InternalError)) // bcrypt.compare rejects the data
    else if !env.hasher.compare(password.s, user.passwordHash.value) then Response(400, Message(InvalidCredentials))
    else match Jwt.Sign(env.jwtSecret, user.id, user.name, env.now)
      case None => Response(500, Message(InternalError))
      case Some(token) => Response(200, TokenBody(token))
  }

  /**
   * POST /login.  Checks, in this order: a falsy password; the store query;
   * an unknown name; then `Authenticate` on the first row with the name.
   */
  function Login(users: seq<Row>, reachable: bool, env: Env, username: Value, password: Value): (r: Response<LoginBody>)
    // a missing or empty password is refused before the table is read
    ensures Falsy(password) ==> r == Response(400, Message(PasswordRequired))
    ensures !Falsy(password) && !SelectRuns(reachable, username) ==> r == Response(500, Message(InternalError))
    // an unknown user is told exactly what a wrong password is told
    ensures !Falsy(password) && SelectRuns(reachable, username) && NoneNamed(users, QueryText(username)) ==>
      r == Response(400, Message(InvalidCredentials))
    ensures forall i | !Falsy(password) && SelectRuns(reachable, username) && IsFirstNamed(users, QueryText(username), i) ::
      r == Authenticate(env, users[i], password)
  {
    if Falsy(password) then Response(400, Message(PasswordRequired))
    else match Query(users, QueryText(username), reachable)
      case StoreError => Response(500, Message(InternalError))
      case Rows(rows) =>
        if |rows| == 0 then Response(400, Message(InvalidCredentials))
        else Authenticate(env, rows[0], password)
  }

  /**
   * POST /forgot-password/check.  The name is looked up first, and only then
   * is the code compared, strictly, with the string "667".  Reads the table
   * and changes nothing.
   */
  function Check(users: seq<Row>, reachable: bool, username: Value, adminCode: Value): (r: Response<ResetBody>)
    ensures !SelectRuns(reachable, username) ==> r == Response(500, Outcome(false, InternalError))
    // existence is tested before the code, whatever the code is
    ensures SelectRuns(reachable, username) && NoneNamed(users, QueryText(username)) ==> r == Response(200, Outcome(false, UsernameNotFound))
    ensures SelectRuns(reachable, username) && !NoneNamed(users, QueryText(username)) && adminCode != Str(AdminCode) ==>
      r == Response(200, Outcome(false, WrongAdminCode))
    ensures r.body.success <==> SelectRuns(reachable, username) && !NoneNamed(users, QueryText(username)) && adminCode == Str(AdminCode)
    ensures r.body.success ==> r == Response(200, Outcome(true, EligibleForReset))
  {
    match Query(users, QueryText(username), reachable)
    case StoreError => Response(500, Outcome(false, InternalError))
    case Rows(rows) =>
      if |rows| == 0 then Response(200, Outcome(false, UsernameNotFound))
      else if adminCode != Str(AdminCode) then Response(200, Outcome(false, WrongAdminCode))
      else Response(200, Outcome(true, EligibleForReset))
  }

  /** The database the handlers share: the `users` table, which only the reset handler writes. */
  class Database {
    var users: seq<Row>

    constructor (rows: seq<Row>)
      ensures users == rows
    {
      users := rows;
    }

    /**
     * POST /forgot-password/reset.  The two checks of `Check`, with the same
     * answers when either fails; then bcrypt hashes the new password (it
     * rejects anything but a string) and the UPDATE writes the hash into
     * every row with the name.  `updateReachable` says whether the UPDATE
     * reaches the store.
     */
    method ResetPassword(hasher: Hashing.Hasher, selectReachable: bool, updateReachable: bool,
                         username: Value, adminCode: Value, newPassword: Value)
      returns (r: Response<ResetBody>)
      modifies this
      // a failed check answers as the check handler does, and writes nothing
      ensures var c := Check(old(users), selectReachable, username, adminCode);
        !c.body.success ==> r == c && users == old(users)
      ensures SelectRuns(selectReachable, username) && NoneNamed(old(users), QueryText(username)) ==>
        r == Response(200, Outcome(false, UsernameNotFound)) && users == old(users)
      ensures SelectRuns(selectReachable, username) && !NoneNamed(old(users), QueryText(username)) && adminCode != Str(AdminCode) ==>
        r == Response(200, Outcome(false, WrongAdminCode)) && users == old(users)
      ensures Check(old(users), selectReachable, username, adminCode).body.success ==>
        if newPassword.Str? && updateReachable
        then r == Response(200, Outcome(true, PasswordUpdated)) &&
             users == SetHash(old(users), QueryText(username), hasher.hash(newPassword.s))
        else r == Response(500, Outcome(false, InternalError)) && users == old(users)
      // the frame: only the hash of the rows with the name can change
      ensures |users| == |old(users)|
      ensures forall i | 0 <= i < |users| ::
        users[i] == old(users[i]) ||
        (r.body.success && Matches(old(users[i]), QueryText(username)) &&
         users[i] == old(users[i]).(passwordHash := Some(hasher.hash(newPassword.s))))
    {
      var checked := Check(users, selectReachable, username, adminCode);
      if !checked.body.success {
        return checked;
      }
      if !newPassword.Str? {
        // bcrypt.hash rejects a missing or non-string password
        return Response(500, Outcome(false, InternalError));
      }
      var hashed := hasher.hash(newPassword.s);
      if !updateReachable {
        return Response(500, Outcome(false, InternalError));
      }
      users := SetHash(users, QueryText(username), hashed);
      return Response(200, Outcome(true, PasswordUpdated));
    }
  }

  /**
   * A login for a name no row carries and a login whose password fails the
   * compare get the same status and message, so the answer does not reveal
   * whether the name exists.
   */
  lemma UnknownUserLooksLikeWrongPassword(env: Env, users: seq<Row>, username: Value, password: Value,
                                          others: seq<Row>, other: Value, guess: Value, i: int)
    requires !Falsy(password) && Bindable(QueryText(username)) && NoneNamed(users, QueryText(username))
    requires Bindable(QueryText(other))
    requires guess.Str? && guess.s != "" && IsFirstNamed(others, QueryText(other), i) && HasHash(others[i])
    requires !env.hasher.compare(guess.s, others[i].passwordHash.value)
    ensures Login(users, true, env, username, password) == Login(others, true, env, other, guess)
    ensures Login(users, true, env, username, password) == Response(400, Message(InvalidCredentials))
  {
  }

  /**
   * A missing or `null` username is bound as SQL NULL, which no row
   * matches: a login with a password is refused as "Invalid credentials" and
   * the reset check answers "Username doesn't exist", whatever the table.
   */
  lemma MissingUsernameFindsNoRow(env: Env, users: seq<Row>, username: Value, password: Value, adminCode: Value)
    requires username.Absent? || username.Null?
    requires !Falsy(password)
    ensures Login(users, true, env, username, password) == Response(400, Message(InvalidCredentials))
    ensures Check(users, true, username, adminCode) == Response(200, Outcome(false, UsernameNotFound))
  {
  }

  /**
   * After a successful reset to a non-empty password (the name exists, so
   * `ResetPassword` applies `SetHash`), logging in with that password
   * succeeds and yields the token of the first row with the name, whose id
   * and name the reset left alone.
   */
  lemma ResetThenLogin(env: Env, users: seq<Row>, username: Value, newPassword: string)
    requires Hashing.Sound(env.hasher) && Jwt.UsableSecret(env.jwtSecret)
    requires Bindable(QueryText(username)) && !NoneNamed(users, QueryText(username))
    requires newPassword != ""
    ensures exists i ::
      (IsFirstNamed(users, QueryText(username), i) &&
       Login(SetHash(users, QueryText(username), env.hasher.hash(newPassword)), true, env, username, Str(newPassword))
         == Response(200, TokenBody(TokenFor(env, users[i]))))
  {
    var name := QueryText(username);
    var hash := env.hasher.hash(newPassword);
    assert Select(users, name) != [];
    var i :| IsFirstNamed(users, name, i);
    SetHashKeepsFirstNamed(users, name, hash, i);
    var after := SetHash(users, name, hash);
    assert after[i].passwordHash == Some(hash) && env.hasher.compare(newPassword, hash);
    assert Login(after, true, env, username, Str(newPassword)) == Authenticate(env, after[i], Str(newPassword));
  }

  /**
   * After a successful reset, any other password, the old one included, is
   * refused with "Invalid credentials", provided both are keys bcrypt reads
   * whole (no U+0000, at most 72 bytes) and bcrypt hashes of whole keys
   * match only their own key.
   */
  lemma ResetThenOtherPasswordFails(env: Env, users: seq<Row>, username: Value, newPassword: string, password: string)
    requires Hashing.Sound(env.hasher) && Hashing.Binding(env.hasher)
    requires Bindable(QueryText(username)) && !NoneNamed(users, QueryText(username))
    requires password != "" && password != newPassword
    requires Hashing.WholeKey(password) && Hashing.WholeKey(newPassword)
    ensures Login(SetHash(users, QueryText(username), env.hasher.hash(newPassword)), true, env, username, Str(password))
      == Response(400, Message(InvalidCredentials))
  {
  }

  /** A worked example: "alice", stored with the hash of "hunter2", logs in with "hunter2". */
  lemma AliceLogsIn(env: Env, id: int)
    requires Hashing.Sound(env.hasher) && Jwt.UsableSecret(env.jwtSecret)
    ensures var users := [Row(id, "alice", Some(env.hasher.hash("hunter2")))];
      Login(users, true, env, Str("alice"), Str("hunter2")) ==
        Response(200, TokenBody(Jwt.Token(Jwt.Claims(id, "alice", env.now, env.now + Jwt.Lifetime), env.jwtSecret.value)))
  {
  }

  /** The same table: a wrong password for alice gets "Invalid credentials". */
  lemma AliceWrongPassword(env: Env, id: int)
    requires Hashing.Sound(env.hasher) && Hashing.Binding(env.hasher)
    ensures var users := [Row(id, "alice", Some(env.hasher.hash("hunter2")))];
      Login(users, true, env, Str("alice"), Str("wrong")) == Response(400, Message(InvalidCredentials))
  {
    Hashing.Utf8LengthAscii("hunter2");
    Hashing.Utf8LengthAscii("wrong");
    Hashing.OtherKeyFails(env.hasher, "wrong", "hunter2");
    var users := [Row(id, "alice", Some(env.hasher.hash("hunter2")))];
    assert IsFirstNamed(users, QueryText(Str("alice")), 0);
  }

  /** The same table: the unknown user "bob" gets that same answer. */
  lemma UnknownBob(env: Env, id: int)
    ensures var users := [Row(id, "alice", Some(env.hasher.hash("hunter2")))];
      Login(users, true, env, Str("bob"), Str("x")) == Response(400, Message(InvalidCredentials))
  {
  }
}
