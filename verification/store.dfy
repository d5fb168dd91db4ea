/** The persistent rows the handlers read and write, held in memory.
    Users form a table in primary-key order, so gorm's `First` (the
    lowest-keyed matching row) is the first match in the sequence. Sessions
    and reset records are keyed by their string primary key. Deletion is
    gorm's soft delete: the row leaves the live map, since `First` never
    returns a soft-deleted row, but its key is remembered, because the row
    stays in the table and its primary key cannot be inserted again. */
module Store {
  import opened Wrappers

  datatype User = User(id: nat, email: string, username: string, password: string)

  datatype Session = Session(id: string, userId: nat, expiry: int, userAgent: string, ip: string)

  datatype PasswordReset = PasswordReset(id: string, userId: nat, token: string, expiresAt: int)

  /** `nextId` is the next value of the users' auto-increment key;
      `deletedSessions` and `deletedResets` are the keys of soft-deleted
      rows. */
  datatype Db = Db(
    users: seq<User>,
    sessions: map<string, Session>,
    resets: map<string, PasswordReset>,
    nextId: nat,
    deletedSessions: set<string>,
    deletedResets: set<string>)

  /** An operation's response together with the store it leaves behind. */
  datatype Step<O> = Step(outcome: O, db: Db)

  /** A freshly migrated database. */
  function EmptyDb(): (db: Db)
    ensures Valid(db)
    ensures |db.users| == 0 && db.sessions == map[] && db.resets == map[]
    ensures db.deletedSessions == {} && db.deletedResets == {}
  {
    Db([], map[], map[], 1, {}, {})
  }

  /** An insert of a session under `key` violates the primary key: a live
      or a soft-deleted row already holds it. */
  predicate SessionKeyTaken(db: Db, key: string) {
    key in db.sessions || key in db.deletedSessions
  }

  predicate ResetKeyTaken(db: Db, key: string) {
    key in db.resets || key in db.deletedResets
  }

  /** Soft-deletes the live session filed under `key`. */
  function DeleteSession(db: Db, key: string): (d: Db)
    requires key in db.sessions
    ensures key !in d.sessions && SessionKeyTaken(d, key)
    ensures forall t :: t != key ==> (t in d.sessions <==> t in db.sessions)
    ensures forall t :: SessionKeyTaken(db, t) ==> SessionKeyTaken(d, t)
    // only the matched row changes: other sessions and the other tables are untouched
    ensures forall t :: t in d.sessions ==> d.sessions[t] == db.sessions[t]
    ensures d.users == db.users && d.resets == db.resets
    ensures d.deletedResets == db.deletedResets && d.nextId == db.nextId
    ensures d.deletedSessions == db.deletedSessions + {key}
  {
    db.(sessions := db.sessions - {key}, deletedSessions := db.deletedSessions + {key})
  }

  /** Soft-deletes the live reset records whose keys are in `keys`. */
  function DeleteResets(db: Db, keys: set<string>): (d: Db)
    requires keys <= db.resets.Keys
    ensures d.resets.Keys == db.resets.Keys - keys
    ensures forall t :: t in d.resets ==> d.resets[t] == db.resets[t]
    ensures forall t :: ResetKeyTaken(d, t) <==> ResetKeyTaken(db, t)
    // only the matched rows change: the other tables are untouched
    ensures d.users == db.users && d.sessions == db.sessions
    ensures d.deletedSessions == db.deletedSessions && d.nextId == db.nextId
    ensures d.deletedResets == db.deletedResets + keys
  {
    db.(resets := db.resets - keys, deletedResets := db.deletedResets + keys)
  }

  /** Index of the first row satisfying `p`, as gorm's `First` returns it. */
  function FirstMatch<T>(rows: seq<T>, p: T -> bool): (r: Option<nat>)
    ensures r.Some? ==> r.value < |rows| && p(rows[r.value])
    ensures r.Some? ==> forall j :: 0 <= j < r.value ==> !p(rows[j])
    ensures r.None? <==> forall j :: 0 <= j < |rows| ==> !p(rows[j])
  {
    if |rows| == 0 then None
    else if p(rows[0]) then Some(0)
    else match FirstMatch(rows[1..], p)
      case None => None
      case Some(k) => Some(k + 1)
  }

  /** `Where("username = ?", username).First`. */
  function UserByUsername(db: Db, username: string): (k: Option<nat>)
    ensures k.Some? ==> k.value < |db.users| && db.users[k.value].username == username
    ensures k.None? <==> !UsernameTaken(db, username)
  {
    FirstMatch(db.users, (u: User) => u.username == username)
  }

  /** `Where("email = ?", email).First`. */
  function UserByEmail(db: Db, email: string): (k: Option<nat>)
    ensures k.Some? ==> k.value < |db.users| && db.users[k.value].email == email
    ensures k.None? <==> !EmailTaken(db, email)
  {
    FirstMatch(db.users, (u: User) => u.email == email)
  }

  /** `First(&user, id)`: lookup by primary key. */
  function UserById(db: Db, id: nat): (k: Option<nat>)
    ensures k.Some? ==> k.value < |db.users| && db.users[k.value].id == id
    ensures k.None? <==> forall i :: 0 <= i < |db.users| ==> db.users[i].id != id
  {
    FirstMatch(db.users, (u: User) => u.id == id)
  }

  predicate UsernameTaken(db: Db, username: string) {
    exists i :: 0 <= i < |db.users| && db.users[i].username == username
  }

  predicate EmailTaken(db: Db, email: string) {
    exists i :: 0 <= i < |db.users| && db.users[i].email == email
  }

  /** Users in strictly increasing key order, with no username or email
      used twice. */
  ghost predicate OrderedRows(users: seq<User>)
    ensures OrderedRows(users) ==> forall i, j :: 0 <= i < |users| && 0 <= j < |users| && i != j ==>
      users[i].id != users[j].id
    ensures OrderedRows(users) ==> forall i, j :: 0 <= i < |users| && 0 <= j < |users| && i != j ==>
      users[i].username != users[j].username
    ensures OrderedRows(users) ==> forall i, j :: 0 <= i < |users| && 0 <= j < |users| && i != j ==>
      users[i].email != users[j].email
  {
    && (forall i, j :: 0 <= i < j < |users| ==> users[i].id < users[j].id)
    && (forall i, j :: 0 <= i < j < |users| ==> users[i].username != users[j].username)
    && (forall i, j :: 0 <= i < j < |users| ==> users[i].email != users[j].email)
  }

  /** The store's integrity constraints: increasing user keys below the
      counter, unique usernames and emails, rows filed under their own
      primary key, reset records whose ID is their token, and at most one
      reset record per user. */
  ghost predicate Valid(db: Db)
    // a key, a username and an email each name at most one row
    ensures Valid(db) ==> forall i, j :: 0 <= i < |db.users| && 0 <= j < |db.users| && i != j ==>
      db.users[i].id != db.users[j].id
    ensures Valid(db) ==> forall i, j :: 0 <= i < |db.users| && 0 <= j < |db.users| && i != j ==>
      db.users[i].username != db.users[j].username
    ensures Valid(db) ==> forall i, j :: 0 <= i < |db.users| && 0 <= j < |db.users| && i != j ==>
      db.users[i].email != db.users[j].email
    // a live row and a soft-deleted row never share a key
    ensures Valid(db) ==> forall t :: !(t in db.sessions && t in db.deletedSessions)
  {
    && OrderedRows(db.users)
    && (forall i :: 0 <= i < |db.users| ==> db.users[i].id < db.nextId)
    && (forall t :: t in db.sessions ==> db.sessions[t].id == t)
    && (forall t :: t in db.resets ==> db.resets[t].id == t && db.resets[t].token == t)
    && (forall a, b :: a in db.resets && b in db.resets && db.resets[a].userId == db.resets[b].userId ==> a == b)
    && db.sessions.Keys !! db.deletedSessions
    && db.resets.Keys !! db.deletedResets
  }

  /** In a valid store a username names exactly one row. */
  lemma UsernameNamesOneRow(db: Db, username: string, i: nat)
    requires Valid(db)
    requires i < |db.users| && db.users[i].username == username
    ensures UserByUsername(db, username) == Some(i)
  {
    var k := UserByUsername(db, username);
    assert k.Some?;
    assert db.users[k.value].username == username;
  }

  /** In a valid store a key names exactly one row. */
  lemma IdNamesOneRow(db: Db, i: nat)
    requires Valid(db)
    requires i < |db.users|
    ensures UserById(db, db.users[i].id) == Some(i)
  {
    var k := UserById(db, db.users[i].id);
    assert k.Some?;
  }

  /** Reset records are looked up by their token column. In a valid store a
      record carries a given token exactly when it is filed under that token,
      so a lookup by key finds the same record. */
  lemma ResetTokenIsKey(db: Db, token: string)
    requires Valid(db)
    ensures (exists id :: id in db.resets && db.resets[id].token == token) <==> token in db.resets
    ensures forall id :: id in db.resets && db.resets[id].token == token ==> id == token
  {
    if token in db.resets {
      assert db.resets[token].token == token;
    }
  }

  /** Appending a row under the next key, with a username and an email no
      row uses, keeps the store valid. */
  lemma AppendUserKeepsValid(db: Db, u: User)
    requires Valid(db)
    requires u.id == db.nextId
    requires forall i :: 0 <= i < |db.users| ==> db.users[i].username != u.username && db.users[i].email != u.email
    ensures Valid(db.(users := db.users + [u], nextId := db.nextId + 1))
  {
    var users := db.users + [u];
    assert forall i :: 0 <= i < |db.users| ==> users[i] == db.users[i];
    assert OrderedRows(users);
  }

  /** Replacing one row's password hash keeps the store valid. */
  lemma SetPasswordKeepsValid(db: Db, k: nat, hash: string)
    requires Valid(db) && k < |db.users|
    ensures Valid(db.(users := db.users[k := db.users[k].(password := hash)]))
  {
    var users := db.users[k := db.users[k].(password := hash)];
    assert forall i :: 0 <= i < |users| ==>
      users[i].id == db.users[i].id && users[i].username == db.users[i].username && users[i].email == db.users[i].email;
    assert OrderedRows(users);
  }
}
