/** The server's tables (users, sessions, notes) as sequences of rows, with
    the uniqueness constraints the schema declares and the updates the
    handlers issue. Every `UPDATE` refreshes the row's `updated_at` column,
    as the `$onUpdate` default does. */
module ServerSchema {
  import opened Common

  /** A row of `users`. The confirm-code columns are read and written by
      the account-wipe endpoints. */
  datatype UserRow = UserRow(
    id: nat,
    email: string,
    loginCode: Option<string>,
    loginCodeCreatedAt: Option<int>,
    loginTriesLeft: int,
    createdAt: int,
    updatedAt: int,
    syncToken: Option<string>,
    confirmCode: Option<string>,
    confirmCodeCreatedAt: Option<int>,
    confirmCodeTriesLeft: int)

  /** A row of `sessions`: the salted hash of an access token. */
  datatype SessionRow = SessionRow(id: nat, userId: nat, accessTokenHash: string, accessTokenSalt: string, createdAt: int)

  /** A row of `notes`: one encrypted record of one user. A tombstone has
      no cipher text and carries both deletion timestamps. */
  datatype NoteRow = NoteRow(
    userId: nat,
    clientsideId: Id,
    cipherText: Option<string>,
    iv: Option<string>,
    version: int,
    serversideCreatedAt: int,
    serversideUpdatedAt: int,
    serversideDeletedAt: Option<int>,
    clientsideCreatedAt: int,
    clientsideUpdatedAt: int,
    clientsideDeletedAt: Option<int>)

  datatype ServerDb = ServerDb(users: seq<UserRow>, sessions: seq<SessionRow>, notes: seq<NoteRow>)

  /** The database after a request and the response: a value, or the
      message of the error the handler throws. Writes made before a throw
      stay, since only a transaction rolls back. `Err` carries the thrown
      message, not what the client sees: the result handler
      (backend/src/endpointsFactory.ts:13-20) sends an HTTP error's message
      with its status, and answers anything else, a database violation
      included, with status 500 and "Internal Server Error". */
  datatype Reply<T> = Reply(db: ServerDb, result: Result<T>)

  /** A new user: no codes, no tries, no sync token. */
  function NewUser(id: nat, email: string, now: int): (u: UserRow)
    ensures u.id == id && u.email == email && u.createdAt == now && u.updatedAt == now
    ensures u.loginCode.None? && u.loginCodeCreatedAt.None? && u.loginTriesLeft == 0
    ensures u.syncToken.None? && u.confirmCode.None? && u.confirmCodeCreatedAt.None?
  {
    UserRow(id, email, None, None, 0, now, now, None, None, None, 0)
  }

  /** A note inserted without a version: the version defaults to 1 and both
      server-side creation and update stamps are the insertion time. */
  function InsertedNote(userId: nat, id: Id, cipherText: string, iv: string, createdAt: int, updatedAt: int, now: int): (r: NoteRow)
    ensures r.userId == userId && r.clientsideId == id && r.version == 1
    ensures r.cipherText == Some(cipherText) && r.iv == Some(iv)
    ensures r.serversideCreatedAt == now && r.serversideUpdatedAt == now
    ensures r.serversideDeletedAt.None? && r.clientsideDeletedAt.None?
    ensures r.clientsideCreatedAt == createdAt && r.clientsideUpdatedAt == updatedAt
  {
    NoteRow(userId, id, Some(cipherText), Some(iv), 1, now, now, None, createdAt, updatedAt, None)
  }

  /** The unique key `user_client_id`. */
  function NoteKey(r: NoteRow): (nat, Id) {
    (r.userId, r.clientsideId)
  }

  /** No two note rows share `(user_id, clientside_id)`. */
  predicate NotesUnique(notes: seq<NoteRow>) {
    forall i, j :: 0 <= i < j < |notes| ==> NoteKey(notes[i]) != NoteKey(notes[j])
  }

  /** A server-side deletion stamp comes with the client's deletion time. */
  predicate TombstonesStamped(notes: seq<NoteRow>) {
    forall i :: 0 <= i < |notes| && notes[i].serversideDeletedAt.Some? ==> notes[i].clientsideDeletedAt.Some?
  }

  /** No two users share an e-mail address. */
  predicate EmailsUnique(users: seq<UserRow>) {
    forall i, j :: 0 <= i < j < |users| ==> users[i].email != users[j].email
  }

  /** `UPDATE notes SET … WHERE user_id = u AND clientside_id = id`: `f`
      rewrites every matching row, whose `serverside_updated_at` becomes
      `now`; other rows are untouched. */
  function UpdateNote(notes: seq<NoteRow>, userId: nat, id: Id, f: NoteRow -> NoteRow, now: int): (r: seq<NoteRow>)
    ensures |r| == |notes|
    ensures forall i :: 0 <= i < |notes| && NoteKey(notes[i]) != (userId, id) ==> r[i] == notes[i]
    ensures forall i :: 0 <= i < |notes| && NoteKey(notes[i]) == (userId, id) ==>
      r[i] == f(notes[i]).(serversideUpdatedAt := now)
  {
    seq(|notes|, i requires 0 <= i < |notes| =>
      if NoteKey(notes[i]) == (userId, id) then f(notes[i]).(serversideUpdatedAt := now) else notes[i])
  }

  /** `UPDATE users SET … WHERE id = u`: `f` rewrites the matching rows,
      whose `updated_at` becomes `now`. */
  function UpdateUser(users: seq<UserRow>, id: nat, f: UserRow -> UserRow, now: int): (r: seq<UserRow>)
    ensures |r| == |users|
    ensures forall i :: 0 <= i < |users| && users[i].id != id ==> r[i] == users[i]
    ensures forall i :: 0 <= i < |users| && users[i].id == id ==> r[i] == f(users[i]).(updatedAt := now)
  {
    seq(|users|, i requires 0 <= i < |users| =>
      if users[i].id == id then f(users[i]).(updatedAt := now) else users[i])
  }

  /** Whether some row has the key. */
  predicate HasNote(notes: seq<NoteRow>, userId: nat, id: Id) {
    exists i :: 0 <= i < |notes| && NoteKey(notes[i]) == (userId, id)
  }
}
