/** Registration, login and session verification as transitions of the
    store. Randomness (salt, session-token bytes), scrypt, SHA-256 and the
    clock are inputs; the request's User-Agent header and client IP are
    plain strings. */
module Auth {
  import opened Wrappers
  import opened Hex
  import opened Clock
  import opened Store
  import opened PasswordPolicy
  import opened PasswordCodec
  import Tokens

  const MinUsernameLen: nat := 6
  const MaxUsernameLen: nat := 16
  const SessionLifetime: int := 6 * Hour
  /** A verified session with less than this left is renewed. */
  const RenewWindow: int := 3 * Hour

  /** The byte-length rule for usernames. */
  predicate UsernameFits(username: string)
    ensures UsernameFits(username) ==> 2 <= |username| <= MaxUsernameLen
    ensures IsAscii(username) ==> (UsernameFits(username) <==> MinUsernameLen <= |username| <= MaxUsernameLen)
  {
    MinUsernameLen <= ByteLen(username) <= MaxUsernameLen
  }

  datatype RegisterOutcome =
    | Registered
    | BadUsername
    | UsernameExists
    | EmailExists
    | WeakPassword
    | PasswordMismatch
    | HashError
  {
    function Status(): int {
      match this
      case Registered => 201
      case UsernameExists | EmailExists => 409
      case HashError => 500
      case _ => 400
    }

    function Message(): string
      requires !Registered?
    {
      match this
      case BadUsername => "Username does not match requirements"
      case UsernameExists => "Username already exists"
      case EmailExists => "Email already exists"
      case WeakPassword => "Password does not match expected criteria"
      case PasswordMismatch => "Passwords do not match"
      case HashError => "Error processing password"
    }
  }

  /** Checks, in order, username length, username and email uniqueness,
      password policy and confirmation, reporting the first failure; then
      stores a new user whose password is the salted hash. No session is
      created. */
  function Register(db: Db, username: string, email: string, password: string, confirm: string,
                    salt: Option<Bytes>, kdf: Kdf): (r: Step<RegisterOutcome>)
    requires salt.Some? ==> |salt.value| == SaltLen
    ensures r.outcome.BadUsername? <==> !UsernameFits(username)
    ensures r.outcome.UsernameExists? <==> UsernameFits(username) && UsernameTaken(db, username)
    ensures r.outcome.EmailExists? <==>
      UsernameFits(username) && !UsernameTaken(db, username) && EmailTaken(db, email)
    ensures r.outcome.WeakPassword? <==>
      UsernameFits(username) && !UsernameTaken(db, username) && !EmailTaken(db, email)
      && !ValidPassword(password)
    ensures r.outcome.PasswordMismatch? <==>
      UsernameFits(username) && !UsernameTaken(db, username) && !EmailTaken(db, email)
      && ValidPassword(password) && password != confirm
    ensures r.outcome.HashError? <==>
      UsernameFits(username) && !UsernameTaken(db, username) && !EmailTaken(db, email)
      && ValidPassword(password) && password == confirm && salt.None?
    ensures !r.outcome.Registered? ==> r.db == db
    ensures r.db.sessions == db.sessions && r.db.resets == db.resets
    ensures r.db.deletedSessions == db.deletedSessions && r.db.deletedResets == db.deletedResets
    ensures r.outcome.Registered? ==>
      && |r.db.users| == |db.users| + 1
      && r.db.users[..|db.users|] == db.users
      && var u := r.db.users[|db.users|];
      && u.id == db.nextId && u.username == username && u.email == email
      && u.password == HashPassword(password, salt, kdf).value
      && u.password != password
      && VerifyPassword(u.password, password, kdf)
  {
    if !UsernameFits(username) then Step(BadUsername, db)
    else if UserByUsername(db, username).Some? then Step(UsernameExists, db)
    else if UserByEmail(db, email).Some? then Step(EmailExists, db)
    else if !ValidPassword(password) then Step(WeakPassword, db)
    else if password != confirm then Step(PasswordMismatch, db)
    else match HashPassword(password, salt, kdf)
      case None => Step(HashError, db)
      case Some(hash) =>
        VerifyOwnHash(password, salt.value, kdf);
        HashIsNotPlaintext(password, salt.value, kdf);
        var user := User(db.nextId, email, username, hash);
        Step(Registered, db.(users := db.users + [user], nextId := db.nextId + 1))
  }

  lemma RegisterPreservesValid(db: Db, username: string, email: string, password: string,
                               confirm: string, salt: Option<Bytes>, kdf: Kdf)
    requires salt.Some? ==> |salt.value| == SaltLen
    requires Valid(db)
    ensures Valid(Register(db, username, email, password, confirm, salt, kdf).db)
  {
    var r := Register(db, username, email, password, confirm, salt, kdf);
    if r.outcome.Registered? {
      var u := User(db.nextId, email, username, HashPassword(password, salt, kdf).value);
      assert r.db == db.(users := db.users + [u], nextId := db.nextId + 1);
      AppendUserKeepsValid(db, u);
    }
  }

  datatype LoginOutcome =
    | LoggedIn(token: string)
    | InvalidUsername
    | InvalidPassword
    | TokenError
    | SessionCreateError
  {
    function Status(): int {
      match this
      case LoggedIn(_) => 201
      case InvalidUsername | InvalidPassword => 400
      case _ => 500
    }

    function Message(): string
      requires !LoggedIn?
    {
      match this
      case InvalidUsername => "Invalid Username"
      case InvalidPassword => "Invalid Password"
      case TokenError => "Error generating session"
      case SessionCreateError => "Error creating session"
    }
  }

  /** Looks the user up by username and checks the password; on success
      stores a session keyed by a fresh token, bound to the caller's
      User-Agent and IP, expiring six hours from now. A token equal to the
      key of a live or soft-deleted session is a primary-key violation and
      stores nothing. */
  function Login(db: Db, username: string, password: string, kdf: Kdf,
                 entropy: Option<Bytes>, sha256: Tokens.Sha256,
                 userAgent: string, ip: string, now: int): (r: Step<LoginOutcome>)
    requires entropy.Some? ==> |entropy.value| == Tokens.EntropyLen
    ensures r.outcome.InvalidUsername? <==> !UsernameTaken(db, username)
    ensures r.outcome.InvalidPassword? <==>
      && UserByUsername(db, username).Some?
      && !VerifyPassword(db.users[UserByUsername(db, username).value].password, password, kdf)
    ensures r.outcome.TokenError? <==>
      && UserByUsername(db, username).Some?
      && VerifyPassword(db.users[UserByUsername(db, username).value].password, password, kdf)
      && entropy.None?
    ensures r.outcome.SessionCreateError? <==>
      && UserByUsername(db, username).Some?
      && VerifyPassword(db.users[UserByUsername(db, username).value].password, password, kdf)
      && entropy.Some?
      && SessionKeyTaken(db, Tokens.SessionToken(entropy, sha256).value)
    ensures !r.outcome.LoggedIn? ==> r.db == db
    ensures r.db.users == db.users && r.db.resets == db.resets && r.db.nextId == db.nextId
    ensures r.db.deletedSessions == db.deletedSessions && r.db.deletedResets == db.deletedResets
    ensures r.outcome.LoggedIn? ==>
      && UserByUsername(db, username).Some?
      && var u := db.users[UserByUsername(db, username).value];
      && u.username == username
      && VerifyPassword(u.password, password, kdf)
      && var t := r.outcome.token;
      && Tokens.SessionToken(entropy, sha256) == Some(t)
      && !SessionKeyTaken(db, t)
      && r.db.sessions == db.sessions[t := Session(t, u.id, now + SessionLifetime, userAgent, ip)]
  {
    match UserByUsername(db, username)
    case None => Step(InvalidUsername, db)
    case Some(k) =>
      var user := db.users[k];
      if !VerifyPassword(user.password, password, kdf) then Step(InvalidPassword, db)
      else match Tokens.SessionToken(entropy, sha256)
        case None => Step(TokenError, db)
        case Some(token) =>
          if SessionKeyTaken(db, token) then Step(SessionCreateError, db)
          else
            var session := Session(token, user.id, now + SessionLifetime, userAgent, ip);
            Step(LoggedIn(token), db.(sessions := db.sessions[token := session]))
  }

  lemma LoginPreservesValid(db: Db, username: string, password: string, kdf: Kdf,
                            entropy: Option<Bytes>, sha256: Tokens.Sha256,
                            userAgent: string, ip: string, now: int)
    requires entropy.Some? ==> |entropy.value| == Tokens.EntropyLen
    requires Valid(db)
    ensures Valid(Login(db, username, password, kdf, entropy, sha256, userAgent, ip, now).db)
  {
  }

  datatype VerifyOutcome =
    | Active
    | Renewed(expiry: int)
    | InvalidToken
    | BindingConflict
    | SessionExpired
  {
    function Status(): int {
      match this
      case Active => 200
      case Renewed(_) => 201
      case BindingConflict => 409
      case _ => 400
    }

    function Message(): string
      requires !Active? && !Renewed?
    {
      match this
      case InvalidToken => "Invalid token"
      case BindingConflict => "Conflicting User agent/IP"
      case SessionExpired => "Session expired"
    }
  }

  predicate BoundTo(s: Session, userAgent: string, ip: string) {
    s.userAgent == userAgent && s.ip == ip
  }

  /** Checks the token's binding to User-Agent and IP (a mismatch deletes
      the session), then expiry, strictly after the stored instant (an
      expired session is deleted), then renews a session with less than
      three hours left to six hours from now. */
  function VerifySession(db: Db, token: string, userAgent: string, ip: string, now: int): (r: Step<VerifyOutcome>)
    ensures r.outcome.InvalidToken? <==> token !in db.sessions
    ensures r.outcome.BindingConflict? <==>
      token in db.sessions && !BoundTo(db.sessions[token], userAgent, ip)
    ensures r.outcome.SessionExpired? <==>
      token in db.sessions && BoundTo(db.sessions[token], userAgent, ip)
      && now > db.sessions[token].expiry
    ensures r.outcome.Renewed? <==>
      token in db.sessions && BoundTo(db.sessions[token], userAgent, ip)
      && now <= db.sessions[token].expiry && db.sessions[token].expiry - now < RenewWindow
    ensures r.db.users == db.users && r.db.resets == db.resets && r.db.nextId == db.nextId
    ensures r.outcome.InvalidToken? || r.outcome.Active? ==> r.db == db
    ensures r.outcome.BindingConflict? || r.outcome.SessionExpired? ==>
      r.db == DeleteSession(db, token)
    ensures r.outcome.Renewed? ==>
      && r.outcome.expiry == now + SessionLifetime
      && r.outcome.expiry > db.sessions[token].expiry
      && r.db == db.(sessions := db.sessions[token := db.sessions[token].(expiry := r.outcome.expiry)])
    ensures r.outcome.Active? || r.outcome.Renewed? ==>
      token in r.db.sessions && r.db.sessions[token].expiry - now >= RenewWindow
  {
    if token !in db.sessions then Step(InvalidToken, db)
    else
      var s := db.sessions[token];
      if !BoundTo(s, userAgent, ip) then
        Step(BindingConflict, DeleteSession(db, token))
      else if now > s.expiry then
        Step(SessionExpired, DeleteSession(db, token))
      else if s.expiry - now < RenewWindow then
        var expiry := now + SessionLifetime;
        Step(Renewed(expiry), db.(sessions := db.sessions[token := s.(expiry := expiry)]))
      else Step(Active, db)
  }

  lemma VerifySessionPreservesValid(db: Db, token: string, userAgent: string, ip: string, now: int)
    requires Valid(db)
    ensures Valid(VerifySession(db, token, userAgent, ip, now).db)
  {
  }
}
