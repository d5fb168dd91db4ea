/** Properties of sequences of operations: what one transition leaves
    behind for the next. */
module Lifecycle {
  import opened Wrappers
  import opened Hex
  import opened Clock
  import PasswordPolicy
  import opened Store
  import opened PasswordCodec
  import opened Auth
  import opened PasswordReset
  import Tokens

  /** A user who has just registered can log in with the same password
      (given a session token that is not already in use). */
  lemma RegisterThenLogin(db: Db, username: string, email: string, password: string,
                          salt: Bytes, kdf: Kdf, entropy: Bytes, sha256: Tokens.Sha256,
                          userAgent: string, ip: string, now: int)
    requires Valid(db)
    requires |salt| == SaltLen && |entropy| == Tokens.EntropyLen
    ensures
      var r := Register(db, username, email, password, password, Some(salt), kdf);
      r.outcome.Registered? && !SessionKeyTaken(db, Tokens.SessionToken(Some(entropy), sha256).value) ==>
        Login(r.db, username, password, kdf, Some(entropy), sha256, userAgent, ip, now).outcome.LoggedIn?
  {
    var r := Register(db, username, email, password, password, Some(salt), kdf);
    if r.outcome.Registered? {
      RegisterPreservesValid(db, username, email, password, password, Some(salt), kdf);
      UsernameNamesOneRow(r.db, username, |db.users|);
    }
  }

  /** Verifying a session `elapsed` nanoseconds after login, from the same
      client: live without a write for the first three hours, renewed to six
      hours from then until the sixth hour ends (the sixth-hour instant
      itself included), expired and deleted after it. */
  lemma SessionTimeline(db: Db, username: string, password: string, kdf: Kdf,
                        entropy: Bytes, sha256: Tokens.Sha256,
                        userAgent: string, ip: string, t0: int, elapsed: int)
    requires |entropy| == Tokens.EntropyLen
    ensures
      var login := Login(db, username, password, kdf, Some(entropy), sha256, userAgent, ip, t0);
      login.outcome.LoggedIn? ==>
      var r := VerifySession(login.db, login.outcome.token, userAgent, ip, t0 + elapsed);
      && (elapsed <= 3 * Hour ==> r.outcome == Active)
      && (3 * Hour < elapsed <= 6 * Hour ==> r.outcome == Renewed(t0 + elapsed + 6 * Hour))
      && (elapsed > 6 * Hour ==> r.outcome == SessionExpired && login.outcome.token !in r.db.sessions)
  {
  }

  /** After a renewal, verifying again within three hours writes nothing. */
  lemma RenewedThenActive(db: Db, token: string, userAgent: string, ip: string, now: int, later: int)
    requires VerifySession(db, token, userAgent, ip, now).outcome.Renewed?
    requires now <= later <= now + 3 * Hour
    ensures
      var db1 := VerifySession(db, token, userAgent, ip, now).db;
      VerifySession(db1, token, userAgent, ip, later) == Step(Active, db1)
  {
  }

  /** A session presented from another User-Agent or IP is revoked: even the
      original client then gets "Invalid token". */
  lemma DriftRevokes(db: Db, token: string, userAgent: string, ip: string,
                     otherAgent: string, otherIp: string, now: int, later: int)
    requires token in db.sessions && BoundTo(db.sessions[token], userAgent, ip)
    requires otherAgent != userAgent || otherIp != ip
    ensures
      var r := VerifySession(db, token, otherAgent, otherIp, now);
      && r.outcome == BindingConflict
      && VerifySession(r.db, token, userAgent, ip, later).outcome == VerifyOutcome.InvalidToken
  {
  }

  /** A revoked session's token stays a soft-deleted key, so a later login
      whose generated token happens to equal it fails to store its session
      and is never handed that token. */
  lemma RevokedTokenNeverReissued(db: Db, token: string, userAgent: string, ip: string, now: int,
                                  username: string, password: string, kdf: Kdf,
                                  entropy: Option<Bytes>, sha256: Tokens.Sha256,
                                  otherAgent: string, otherIp: string, later: int)
    requires entropy.Some? ==> |entropy.value| == Tokens.EntropyLen
    ensures
      var r := VerifySession(db, token, userAgent, ip, now);
      var login := Login(r.db, username, password, kdf, entropy, sha256, otherAgent, otherIp, later);
      (r.outcome.BindingConflict? || r.outcome.SessionExpired?) && login.outcome.LoggedIn? ==>
        login.outcome.token != token
  {
  }

  /** The binding check comes before the expiry check: an expired session
      presented from another client reports a conflict. */
  lemma BindingBeforeExpiry(db: Db, token: string, userAgent: string, ip: string, now: int)
    requires token in db.sessions && !BoundTo(db.sessions[token], userAgent, ip)
    requires now > db.sessions[token].expiry
    ensures VerifySession(db, token, userAgent, ip, now).outcome == BindingConflict
  {
  }

  /** A second reset request for the same user invalidates the first token,
      whatever the second token is: one equal to the first collides with the
      soft-deleted record and is not stored either. */
  lemma SecondRequestRevokesFirst(db: Db, username: string, t1: string, t2: string, n1: int, n2: int,
                                  password: string, confirm: string, salt: Option<Bytes>, kdf: Kdf, now: int)
    requires salt.Some? ==> |salt.value| == SaltLen
    requires RequestPasswordReset(db, username, Some(t1), n1).outcome.ResetIssued?
    ensures
      var db1 := RequestPasswordReset(db, username, Some(t1), n1).db;
      var db2 := RequestPasswordReset(db1, username, Some(t2), n2).db;
      ConfirmPasswordReset(db2, t1, password, confirm, salt, kdf, now).outcome == ConfirmOutcome.InvalidToken
  {
    var r1 := RequestPasswordReset(db, username, Some(t1), n1);
    var db1 := r1.db;
    assert db1.users == db.users;
    var u := db.users[UserByUsername(db, username).value];
    assert db1.resets[t1].userId == u.id;
    var r2 := RequestPasswordReset(db1, username, Some(t2), n2);
    assert t1 !in r2.db.resets;
  }

  /** A token confirmed more than an hour after it was issued is refused
      and deleted; the user's stored hash does not change. */
  lemma StaleTokenRefused(db: Db, username: string, t: string, issuedAt: int,
                          password: string, confirm: string, salt: Option<Bytes>, kdf: Kdf, now: int)
    requires salt.Some? ==> |salt.value| == SaltLen
    requires RequestPasswordReset(db, username, Some(t), issuedAt).outcome.ResetIssued?
    requires now > issuedAt + Hour
    ensures
      var db1 := RequestPasswordReset(db, username, Some(t), issuedAt).db;
      var r := ConfirmPasswordReset(db1, t, password, confirm, salt, kdf, now);
      && r.outcome == ExpiredToken
      && t !in r.db.resets
      && r.db.users == db.users
  {
  }

  /** A confirmation refused for a weak or unconfirmed password leaves the
      token usable: a later, valid confirmation before expiry succeeds. */
  lemma FailedAttemptKeepsToken(db: Db, token: string, attempt: string, attemptConfirm: string,
                                password: string, salt: Bytes, kdf: Kdf, now: int, later: int)
    requires |salt| == SaltLen
    ensures
      var r := ConfirmPasswordReset(db, token, attempt, attemptConfirm, Some(salt), kdf, now);
      (r.outcome.WeakPassword? || r.outcome.PasswordMismatch?)
      && later <= db.resets[token].expiresAt
      && PasswordPolicy.ValidPassword(password)
      && UserById(db, db.resets[token].userId).Some? ==>
        ConfirmPasswordReset(r.db, token, password, password, Some(salt), kdf, later).outcome.PasswordChanged?
  {
  }

  /** After a successful reset the new password logs in, and the old one
      logs in only if the KDF cannot tell it from the new one under the
      new salt. */
  lemma ResetRotatesPassword(db: Db, token: string, password: string, salt: Bytes, kdf: Kdf, now: int,
                             oldPassword: string, entropy: Bytes, sha256: Tokens.Sha256,
                             userAgent: string, ip: string, later: int)
    requires Valid(db)
    requires |salt| == SaltLen && |entropy| == Tokens.EntropyLen
    ensures
      var r := ConfirmPasswordReset(db, token, password, password, Some(salt), kdf, now);
      r.outcome.PasswordChanged? && !SessionKeyTaken(db, Tokens.SessionToken(Some(entropy), sha256).value) ==>
      var db1 := r.db;
      var k := UserById(db, db.resets[token].userId).value;
      var name := db.users[k].username;
      && Login(db1, name, password, kdf, Some(entropy), sha256, userAgent, ip, later).outcome.LoggedIn?
      && (kdf(oldPassword, salt) != kdf(password, salt) ==>
            Login(db1, name, oldPassword, kdf, Some(entropy), sha256, userAgent, ip, later).outcome == LoginOutcome.InvalidPassword)
  {
    var r := ConfirmPasswordReset(db, token, password, password, Some(salt), kdf, now);
    if r.outcome.PasswordChanged? {
      var k := UserById(db, db.resets[token].userId).value;
      ConfirmPreservesValid(db, token, password, password, Some(salt), kdf, now);
      UsernameNamesOneRow(r.db, db.users[k].username, k);
      VerifyHashIff(password, oldPassword, salt, kdf);
    }
  }

  /** A reset does not revoke sessions: every session verifies afterwards
      exactly as it did before. */
  lemma ResetKeepsSessions(db: Db, token: string, password: string, confirm: string,
                           salt: Option<Bytes>, kdf: Kdf, now: int,
                           session: string, userAgent: string, ip: string, later: int)
    requires salt.Some? ==> |salt.value| == SaltLen
    ensures
      var db1 := ConfirmPasswordReset(db, token, password, confirm, salt, kdf, now).db;
      VerifySession(db1, session, userAgent, ip, later).outcome
        == VerifySession(db, session, userAgent, ip, later).outcome
  {
  }
}
