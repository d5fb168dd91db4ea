/** The password-reset flow: a request replaces the user's reset records
    with one fresh record valid for an hour; a confirmation consumes it and
    rotates the user's stored hash. The reset token (base64 of 32 random
    bytes) is an input, None when the random source failed. */
module PasswordReset {
  import opened Wrappers
  import opened Hex
  import opened Clock
  import opened Store
  import opened PasswordPolicy
  import opened PasswordCodec

  const ResetLifetime: int := Hour

  datatype RequestOutcome =
    /** The notice handed to the notifier: the user's email and the token. */
    | ResetIssued(email: string, token: string)
    | InvalidUsername
    | TokenError
    | ResetCreateError
  {
    function Status(): int {
      match this
      case ResetIssued(_, _) => 201
      case InvalidUsername => 400
      case _ => 500
    }

    function Message(): string
      requires !ResetIssued?
    {
      match this
      case InvalidUsername => "Invalid Username"
      case TokenError => "Error generating reset token"
      case ResetCreateError => "Error creating reset token"
    }
  }

  /** The keys of the live reset records of user `userId`: what the
      request's `Where("user_id = ?").Delete` removes. */
  function ResetKeysOf(db: Db, userId: nat): (keys: set<string>)
    ensures keys <= db.resets.Keys
    ensures forall id :: id in db.resets ==> (id in keys <==> db.resets[id].userId == userId)
  {
    set id | id in db.resets && db.resets[id].userId == userId
  }

  /** Looks the user up by username, deletes all of that user's reset
      records, then stores a record whose ID and token are the fresh token.
      The deletion happens first, so a failed generation or insert leaves
      the user with no record at all. The insert fails when the token is
      the key of any live or soft-deleted record, the user's own just-deleted
      ones included. */
  function RequestPasswordReset(db: Db, username: string, token: Option<string>, now: int): (r: Step<RequestOutcome>)
    ensures r.outcome.InvalidUsername? <==> !UsernameTaken(db, username)
    ensures r.outcome.InvalidUsername? ==> r.db == db
    ensures r.db.users == db.users && r.db.sessions == db.sessions && r.db.nextId == db.nextId
    ensures r.db.deletedSessions == db.deletedSessions
    ensures !r.outcome.InvalidUsername? ==>
      && var u := db.users[UserByUsername(db, username).value];
      && u.username == username
      && (r.outcome.TokenError? <==> token.None?)
      && (r.outcome.ResetCreateError? <==> token.Some? && ResetKeyTaken(db, token.value))
      && r.db.deletedResets == db.deletedResets + ResetKeysOf(db, u.id)
      // other users' records are kept exactly
      && (forall id :: id in db.resets && db.resets[id].userId != u.id ==>
            id in r.db.resets && r.db.resets[id] == db.resets[id])
      // nothing is added but the fresh record
      && (forall id :: id in r.db.resets ==>
            (id in db.resets && db.resets[id].userId != u.id) || (r.outcome.ResetIssued? && id == r.outcome.token))
      // none of the user's earlier records survive
      && (forall id :: id in r.db.resets && r.db.resets[id].userId == u.id ==>
            r.outcome.ResetIssued? && id == r.outcome.token)
    ensures r.outcome.ResetIssued? ==>
      && var u := db.users[UserByUsername(db, username).value];
      && var t := r.outcome.token;
      && token == Some(t) && r.outcome.email == u.email
      && t in r.db.resets
      && r.db.resets[t] == PasswordReset(t, u.id, t, now + ResetLifetime)
  {
    match UserByUsername(db, username)
    case None => Step(InvalidUsername, db)
    case Some(k) =>
      var user := db.users[k];
      var cleared := DeleteResets(db, ResetKeysOf(db, user.id));
      match token
      case None => Step(TokenError, cleared)
      case Some(t) =>
        if ResetKeyTaken(cleared, t) then Step(ResetCreateError, cleared)
        else
          var record := PasswordReset(t, user.id, t, now + ResetLifetime);
          Step(ResetIssued(user.email, t), cleared.(resets := cleared.resets[t := record]))
  }

  lemma RequestPreservesValid(db: Db, username: string, token: Option<string>, now: int)
    requires Valid(db)
    ensures Valid(RequestPasswordReset(db, username, token, now).db)
  {
  }

  datatype ConfirmOutcome =
    | PasswordChanged
    | InvalidToken
    | ExpiredToken
    | WeakPassword
    | PasswordMismatch
    | HashError
    | UserMissing
  {
    function Status(): int {
      match this
      case PasswordChanged => 200
      case HashError | UserMissing => 500
      case _ => 400
    }

    function Message(): string
      requires !PasswordChanged?
    {
      match this
      case InvalidToken => "Invalid Token"
      case ExpiredToken => "Expired Token"
      case WeakPassword => "Password does not match expected criteria"
      case PasswordMismatch => "Passwords do not match"
      case HashError => "Error processing password"
      case UserMissing => "Error finding user"
    }
  }

  /** Finds the record for `token`; an expired one (strictly after its
      expiry instant) is deleted. The new password must satisfy the policy
      and match its confirmation, else the record stays usable. Then the
      owner's stored hash is replaced and the record is consumed. Sessions
      are left alone. */
  function ConfirmPasswordReset(db: Db, token: string, password: string, confirm: string,
                                salt: Option<Bytes>, kdf: Kdf, now: int): (r: Step<ConfirmOutcome>)
    requires salt.Some? ==> |salt.value| == SaltLen
    ensures r.outcome.InvalidToken? <==> token !in db.resets
    ensures r.outcome.ExpiredToken? <==> token in db.resets && now > db.resets[token].expiresAt
    ensures r.outcome.WeakPassword? <==>
      token in db.resets && now <= db.resets[token].expiresAt && !ValidPassword(password)
    ensures r.outcome.PasswordMismatch? <==>
      token in db.resets && now <= db.resets[token].expiresAt && ValidPassword(password)
      && password != confirm
    ensures r.outcome.HashError? <==>
      token in db.resets && now <= db.resets[token].expiresAt && ValidPassword(password)
      && password == confirm && salt.None?
    ensures r.outcome.UserMissing? <==>
      token in db.resets && now <= db.resets[token].expiresAt && ValidPassword(password)
      && password == confirm && salt.Some? && UserById(db, db.resets[token].userId).None?
    ensures r.db.sessions == db.sessions && r.db.deletedSessions == db.deletedSessions
    ensures r.db.nextId == db.nextId
    ensures r.outcome.ExpiredToken? ==> r.db == DeleteResets(db, {token})
    ensures !r.outcome.ExpiredToken? && !r.outcome.PasswordChanged? ==> r.db == db
    ensures r.outcome.PasswordChanged? ==>
      && token in db.resets
      && r.db.resets == db.resets - {token}
      && r.db.deletedResets == db.deletedResets + {token}
      && UserById(db, db.resets[token].userId).Some?
      && |r.db.users| == |db.users|
      && var k := UserById(db, db.resets[token].userId).value;
      && db.users[k].id == db.resets[token].userId
      && r.db.users == db.users[k := db.users[k].(password := r.db.users[k].password)]
      && r.db.users[k].password == HashPassword(password, salt, kdf).value
      && VerifyPassword(r.db.users[k].password, password, kdf)
  {
    if token !in db.resets then Step(InvalidToken, db)
    else
      var reset := db.resets[token];
      if now > reset.expiresAt then Step(ExpiredToken, DeleteResets(db, {token}))
      else if !ValidPassword(password) then Step(WeakPassword, db)
      else if password != confirm then Step(PasswordMismatch, db)
      else match HashPassword(password, salt, kdf)
        case None => Step(HashError, db)
        case Some(hash) =>
          match UserById(db, reset.userId)
          case None => Step(UserMissing, db)
          case Some(k) =>
            VerifyOwnHash(password, salt.value, kdf);
            var users := db.users[k := db.users[k].(password := hash)];
            Step(PasswordChanged, DeleteResets(db, {token}).(users := users))
  }

  lemma ConfirmPreservesValid(db: Db, token: string, password: string, confirm: string,
                              salt: Option<Bytes>, kdf: Kdf, now: int)
    requires salt.Some? ==> |salt.value| == SaltLen
    requires Valid(db)
    ensures Valid(ConfirmPasswordReset(db, token, password, confirm, salt, kdf, now).db)
  {
    var r := ConfirmPasswordReset(db, token, password, confirm, salt, kdf, now);
    if r.outcome.PasswordChanged? {
      var k := UserById(db, db.resets[token].userId).value;
      SetPasswordKeepsValid(DeleteResets(db, {token}), k, HashPassword(password, salt, kdf).value);
    }
  }
}
