/** The account endpoints: registration, the e-mailed login code, and the
    confirm code that guards wiping a user's notes. The captcha verdict,
    the random draws and the clock are parameters; sending mail is left
    out. Each handler returns the database after the request, since a
    write made before a throw stays. */
module ServerAuth {
  import opened Common
  import opened ServerSchema
  import opened ServerMisc
  import opened ServerSync

  /** Both codes are valid for ten minutes, in milliseconds. */
  const TEN_MINUTES: int := 10 * 60 * 1000

  /** What a successful login returns. */
  datatype Login = Login(accessToken: string, sessionId: nat)

  /** Index of the first user with the e-mail address: the row
      `const [user] = select … where email = e` binds. */
  function FirstUser(users: seq<UserRow>, email: string): (r: Option<nat>)
    ensures r.Some? ==> r.value < |users| && users[r.value].email == email
    ensures r.Some? ==> forall j :: 0 <= j < r.value ==> users[j].email != email
    ensures r.None? <==> forall j :: 0 <= j < |users| ==> users[j].email != email
  {
    if |users| == 0 then None
    else if users[0].email == email then Some(0)
    else match FirstUser(users[1..], email)
      case None => None
      case Some(k) => Some(k + 1)
  }

  /** The number of users with the e-mail address. */
  function CountEmail(users: seq<UserRow>, email: string): (c: nat)
    ensures c == 0 <==> forall j :: 0 <= j < |users| ==> users[j].email != email
    ensures c <= |users|
  {
    if |users| == 0 then 0
    else (if users[0].email == email then 1 else 0) + CountEmail(users[1..], email)
  }

  /** The identity column's next value: above every id in use. */
  function NextUserId(users: seq<UserRow>): (id: nat)
    ensures forall j :: 0 <= j < |users| ==> users[j].id < id
  {
    if |users| == 0 then 1 else Max(users[|users| - 1].id + 1, NextUserId(users[..|users| - 1]))
  }

  /** No two users share an id. */
  predicate UserIdsUnique(users: seq<UserRow>) {
    forall i, j :: 0 <= i < j < |users| ==> users[i].id != users[j].id
  }

  // ---------------------------------------------------------------- register

  /** `registerEmailEndpoint`: a failed captcha and an address already
      present are refused; otherwise a user row is inserted. Should two
      rows share the address, the insert breaks the unique constraint. */
  function RegisterEmail(db: ServerDb, email: string, captchaOk: bool, now: int): (r: Reply<()>)
    ensures !captchaOk ==> r == Reply(db, Err("Invalid captcha"))
    ensures captchaOk && CountEmail(db.users, email) == 1 ==> r == Reply(db, Err("User already exists"))
    ensures r.result.Err? ==> r.db == db
    ensures r.result.Ok? <==> captchaOk && forall j :: 0 <= j < |db.users| ==> db.users[j].email != email
    ensures r.result.Ok? ==> r.db == db.(users := db.users + [NewUser(NextUserId(db.users), email, now)])
  {
    if !captchaOk then Reply(db, Err("Invalid captcha"))
    else
      var c := CountEmail(db.users, email);
      if c == 1 then Reply(db, Err("User already exists"))
      else if c > 1 then Reply(db, Err("duplicate key value violates unique constraint \"users_email_unique\""))
      else Reply(db.(users := db.users + [NewUser(NextUserId(db.users), email, now)]), Ok(()))
  }

  /** Registration keeps e-mail addresses and ids unique, and the new
      address is then found and cannot be registered again. */
  lemma RegisterKeepsUnique(db: ServerDb, email: string, now: int)
    requires EmailsUnique(db.users) && UserIdsUnique(db.users)
    ensures var r := RegisterEmail(db, email, true, now);
      EmailsUnique(r.db.users) && UserIdsUnique(r.db.users) &&
      FirstUser(r.db.users, email).Some? &&
      RegisterEmail(r.db, email, true, now).result == Err("User already exists")
  {
    var r := RegisterEmail(db, email, true, now);
    if r.result.Ok? {
      assert r.db.users[|db.users|].email == email;
      CountOne(r.db.users, email);
    } else {
      CountOne(db.users, email);
    }
  }

  /** Under unique addresses, a present address is counted once. */
  lemma {:induction false} CountOne(users: seq<UserRow>, email: string)
    requires EmailsUnique(users)
    requires exists j :: 0 <= j < |users| && users[j].email == email
    ensures CountEmail(users, email) == 1
  {
    if users[0].email == email {
      forall j | 0 <= j < |users[1..]| ensures users[1..][j].email != email {
        assert users[1..][j] == users[j + 1];
      }
    } else {
      var j :| 0 <= j < |users| && users[j].email == email;
      assert users[1..][j - 1] == users[j];
      CountOne(users[1..], email);
    }
  }

  // ---------------------------------------------------------------- login code

  /** The user row as `sendLoginCodeEndpoint` leaves it. */
  function CodeIssued(code: string, now: int): UserRow -> UserRow {
    (u: UserRow) => u.(loginCode := Some(code), loginCodeCreatedAt := Some(now), loginTriesLeft := 3)
  }

  /** `sendLoginCodeEndpoint`: an unknown address, or a code sent less than
      ten minutes ago, is refused; otherwise the code drawn from `n` is
      stored with three tries. */
  function SendLoginCode(db: ServerDb, email: string, n: int, now: int): (r: Reply<()>)
    requires 0 <= n < 1000000
    ensures FirstUser(db.users, email).None? ==> r == Reply(db, Err("User not found"))
    ensures FirstUser(db.users, email).Some? ==>
      var u := db.users[FirstUser(db.users, email).value];
      (TruthyNum(u.loginCodeCreatedAt) && now - u.loginCodeCreatedAt.value < TEN_MINUTES ==>
        r == Reply(db, Err("Code already sent recently"))) &&
      (!(TruthyNum(u.loginCodeCreatedAt) && now - u.loginCodeCreatedAt.value < TEN_MINUTES) ==>
        r.result.Ok? && r.db.sessions == db.sessions && r.db.notes == db.notes && |r.db.users| == |db.users| &&
        (forall j :: 0 <= j < |db.users| && db.users[j].id != u.id ==> r.db.users[j] == db.users[j]) &&
        (forall j :: 0 <= j < |db.users| && db.users[j].id == u.id ==>
          r.db.users[j].email == db.users[j].email &&
          r.db.users[j].loginCode == Some(GenerateLoginCode(n)) &&
          r.db.users[j].loginCodeCreatedAt == Some(now) && r.db.users[j].loginTriesLeft == 3))
  {
    match FirstUser(db.users, email)
    case None => Reply(db, Err("User not found"))
    case Some(i) =>
      var u := db.users[i];
      if TruthyNum(u.loginCodeCreatedAt) && now - u.loginCodeCreatedAt.value < TEN_MINUTES then
        Reply(db, Err("Code already sent recently"))
      else
        Reply(db.(users := UpdateUser(db.users, u.id, CodeIssued(GenerateLoginCode(n), now), now)), Ok(()))
  }

  /** The user row after a wrong guess. */
  function Guessed(tries: int): UserRow -> UserRow {
    (u: UserRow) => u.(loginTriesLeft := tries - 1)
  }

  /** The user row after a successful login: the code is spent. */
  function CodeSpent(u: UserRow): UserRow {
    u.(loginCode := None, loginCodeCreatedAt := None, loginTriesLeft := 0)
  }

  /** Why `loginCodeEndpoint` refuses before comparing the code, in the
      order it checks: unknown address, no code, expired, no tries. */
  function LoginRefusal(users: seq<UserRow>, email: string, now: int): (m: Option<string>)
    ensures FirstUser(users, email).None? ==> m == Some("User not found")
    ensures m.None? ==> (FirstUser(users, email).Some? &&
      var u := users[FirstUser(users, email).value];
      TruthyStr(u.loginCode) && TruthyNum(u.loginCodeCreatedAt) &&
      now - u.loginCodeCreatedAt.value <= TEN_MINUTES && u.loginTriesLeft != 0)
  {
    match FirstUser(users, email)
    case None => Some("User not found")
    case Some(i) =>
      var u := users[i];
      if !TruthyStr(u.loginCode) || !TruthyNum(u.loginCodeCreatedAt) then Some("No login code set")
      else if now - u.loginCodeCreatedAt.value > TEN_MINUTES then Some("Login code expired")
      else if u.loginTriesLeft == 0 then Some("No tries left")
      else None
  }

  /** `loginCodeEndpoint`: after the refusals, a wrong code costs one try
      and creates no session; the right code is spent and a session row
      is inserted. The access token and the session's salted hash are
      the random draws of `generateSession`; `sessionId` is the identity
      value the insert receives. */
  function LoginCode(db: ServerDb, email: string, input: string, now: int,
                     accessToken: string, salt: string, hash: string, sessionId: nat): (r: Reply<Login>)
    ensures LoginRefusal(db.users, email, now).Some? ==>
      r == Reply(db, Err(LoginRefusal(db.users, email, now).value))
    ensures r.result.Ok? ==> (LoginRefusal(db.users, email, now).None? &&
      db.users[FirstUser(db.users, email).value].loginCode == Some(input))
    ensures r.result.Err? ==> r.db.sessions == db.sessions
    ensures r.db.notes == db.notes && |r.db.users| == |db.users|
    ensures LoginRefusal(db.users, email, now).None? ==>
      var u := db.users[FirstUser(db.users, email).value];
      (forall j :: 0 <= j < |db.users| && db.users[j].id != u.id ==> r.db.users[j] == db.users[j]) &&
      (u.loginCode.value != input ==>
        r.result == Err("Invalid login code") &&
        forall j :: 0 <= j < |db.users| && db.users[j].id == u.id ==>
          r.db.users[j].loginTriesLeft == u.loginTriesLeft - 1 &&
          r.db.users[j].email == db.users[j].email &&
          r.db.users[j].loginCode == db.users[j].loginCode &&
          r.db.users[j].loginCodeCreatedAt == db.users[j].loginCodeCreatedAt) &&
      (u.loginCode.value == input ==>
        r.result == Ok(Login(accessToken, sessionId)) &&
        r.db.sessions == db.sessions + [SessionRow(sessionId, u.id, hash, salt, now)] &&
        forall j :: 0 <= j < |db.users| && db.users[j].id == u.id ==>
          r.db.users[j].email == db.users[j].email &&
          r.db.users[j].loginCode.None? && r.db.users[j].loginTriesLeft == 0)
  {
    match LoginRefusal(db.users, email, now)
    case Some(m) => Reply(db, Err(m))
    case None =>
      var u := db.users[FirstUser(db.users, email).value];
      if u.loginCode.value != input then
        Reply(db.(users := UpdateUser(db.users, u.id, Guessed(u.loginTriesLeft), now)), Err("Invalid login code"))
      else
        var users := UpdateUser(db.users, u.id, CodeSpent, now);
        Reply(db.(users := users, sessions := db.sessions + [SessionRow(sessionId, u.id, hash, salt, now)]),
              Ok(Login(accessToken, sessionId)))
  }

  /** Rewriting rows without touching addresses keeps the first match. */
  lemma {:induction false} FirstUserStable(users: seq<UserRow>, users': seq<UserRow>, email: string)
    requires |users'| == |users|
    requires forall j :: 0 <= j < |users| ==> users'[j].email == users[j].email
    ensures FirstUser(users', email) == FirstUser(users, email)
  {
    if |users| > 0 {
      FirstUserStable(users[1..], users'[1..], email);
    }
  }

  /** A login code is single-use: once it has logged in, every further
      attempt with the address is refused for want of a code. */
  lemma LoginSingleUse(db: ServerDb, email: string, input: string, now: int, accessToken: string, salt: string,
                       hash: string, sessionId: nat, input': string, later: int, accessToken': string,
                       salt': string, hash': string, sessionId': nat)
    requires LoginCode(db, email, input, now, accessToken, salt, hash, sessionId).result.Ok?
    ensures var r := LoginCode(db, email, input, now, accessToken, salt, hash, sessionId);
      LoginCode(r.db, email, input', later, accessToken', salt', hash', sessionId') ==
        Reply(r.db, Err("No login code set"))
  {
    var r := LoginCode(db, email, input, now, accessToken, salt, hash, sessionId);
    FirstUserStable(db.users, r.db.users, email);
  }

  /** A wrong guess leaves the code in place with one try fewer. */
  lemma WrongGuess(db: ServerDb, email: string, input: string, now: int, accessToken: string, salt: string,
                   hash: string, sessionId: nat)
    requires LoginRefusal(db.users, email, now).None?
    requires db.users[FirstUser(db.users, email).value].loginCode != Some(input)
    ensures var r := LoginCode(db, email, input, now, accessToken, salt, hash, sessionId);
      var i := FirstUser(db.users, email).value;
      r.result == Err("Invalid login code") && r.db.sessions == db.sessions &&
      FirstUser(r.db.users, email) == Some(i) &&
      r.db.users[i].loginCode == db.users[i].loginCode &&
      r.db.users[i].loginCodeCreatedAt == db.users[i].loginCodeCreatedAt &&
      r.db.users[i].loginTriesLeft == db.users[i].loginTriesLeft - 1
  {
    var r := LoginCode(db, email, input, now, accessToken, salt, hash, sessionId);
    FirstUserStable(db.users, r.db.users, email);
  }

  /** The first user with the address holds `code`, issued at `issuedAt`,
      with `tries` tries left. */
  predicate CodePending(users: seq<UserRow>, email: string, code: string, issuedAt: int, tries: int) {
    FirstUser(users, email).Some? &&
    var u := users[FirstUser(users, email).value];
    u.loginCode == Some(code) && u.loginCodeCreatedAt == Some(issuedAt) && u.loginTriesLeft == tries
  }

  /** A code that was just sent is pending with three tries. */
  lemma SentPending(db: ServerDb, email: string, n: int, now: int)
    requires 0 <= n < 1000000
    requires SendLoginCode(db, email, n, now).result.Ok?
    ensures CodePending(SendLoginCode(db, email, n, now).db.users, email, GenerateLoginCode(n), now, 3)
  {
    FirstUserStable(db.users, SendLoginCode(db, email, n, now).db.users, email);
  }

  /** One wrong guess at a live pending code costs one try. */
  lemma GuessStep(db: ServerDb, email: string, code: string, issuedAt: int, tries: int, g: string, t: int,
                  tok: string, salt: string, hash: string, sid: nat)
    requires CodePending(db.users, email, code, issuedAt, tries)
    requires code != "" && issuedAt != 0 && t - issuedAt <= TEN_MINUTES && tries != 0 && g != code
    ensures var r := LoginCode(db, email, g, t, tok, salt, hash, sid);
      CodePending(r.db.users, email, code, issuedAt, tries - 1) && r.db.sessions == db.sessions &&
      r.result == Err("Invalid login code")
  {
    WrongGuess(db, email, g, t, tok, salt, hash, sid);
  }

  /** Three wrong guesses after a fresh code use up its tries: even the
      right code is then refused, and no session was created. */
  lemma GuessesExhaustTries(db: ServerDb, email: string, n: int, now: int, t1: int, t2: int, t3: int, t4: int,
                            g1: string, g2: string, g3: string, tok: string, salt: string, hash: string, sid: nat)
    requires 0 <= n < 1000000 && now != 0
    requires SendLoginCode(db, email, n, now).result.Ok?
    requires t1 <= now + TEN_MINUTES && t2 <= now + TEN_MINUTES && t3 <= now + TEN_MINUTES && t4 <= now + TEN_MINUTES
    requires g1 != GenerateLoginCode(n) && g2 != GenerateLoginCode(n) && g3 != GenerateLoginCode(n)
    ensures var d0 := SendLoginCode(db, email, n, now).db;
      var d1 := LoginCode(d0, email, g1, t1, tok, salt, hash, sid).db;
      var d2 := LoginCode(d1, email, g2, t2, tok, salt, hash, sid).db;
      var d3 := LoginCode(d2, email, g3, t3, tok, salt, hash, sid).db;
      d3.sessions == d0.sessions &&
      LoginCode(d3, email, GenerateLoginCode(n), t4, tok, salt, hash, sid) == Reply(d3, Err("No tries left"))
  {
    var code := GenerateLoginCode(n);
    var d0 := SendLoginCode(db, email, n, now).db;
    SentPending(db, email, n, now);
    GuessStep(d0, email, code, now, 3, g1, t1, tok, salt, hash, sid);
    var d1 := LoginCode(d0, email, g1, t1, tok, salt, hash, sid).db;
    GuessStep(d1, email, code, now, 2, g2, t2, tok, salt, hash, sid);
    var d2 := LoginCode(d1, email, g2, t2, tok, salt, hash, sid).db;
    GuessStep(d2, email, code, now, 1, g3, t3, tok, salt, hash, sid);
  }

  /** A code sent at `now` logs in with the right digits within ten minutes. */
  lemma SentCodeLogsIn(db: ServerDb, email: string, n: int, now: int, later: int,
                       tok: string, salt: string, hash: string, sid: nat)
    requires 0 <= n < 1000000 && now != 0
    requires SendLoginCode(db, email, n, now).result.Ok?
    requires later <= now + TEN_MINUTES
    ensures var d0 := SendLoginCode(db, email, n, now).db;
      LoginCode(d0, email, GenerateLoginCode(n), later, tok, salt, hash, sid).result == Ok(Login(tok, sid))
  {
    SentPending(db, email, n, now);
  }

  // ---------------------------------------------------------------- confirm code

  /** The user row as `sendConfirmCodeEndpoint` leaves it. */
  function ConfirmIssued(code: string, now: int): UserRow -> UserRow {
    (u: UserRow) => u.(confirmCode := Some(code), confirmCodeCreatedAt := Some(now), confirmCodeTriesLeft := 3)
  }

  /** `sendConfirmCodeEndpoint`, for the signed-in user `user`: refused
      while the previous code is less than ten minutes old (exactly ten
      minutes is allowed); otherwise the code drawn from `n` is stored
      with three tries. */
  function SendConfirmCode(db: ServerDb, user: UserRow, n: int, now: int): (r: Reply<()>)
    requires 0 <= n < 1000000
    ensures r.result.Err? <==>
      user.confirmCodeCreatedAt.Some? && user.confirmCodeCreatedAt.value != 0 &&
      now < user.confirmCodeCreatedAt.value + TEN_MINUTES
    ensures r.result.Err? ==> r == Reply(db, Err("Confirm code already sent recently"))
    ensures r.db.sessions == db.sessions && r.db.notes == db.notes && |r.db.users| == |db.users|
    ensures forall j :: 0 <= j < |db.users| && db.users[j].id != user.id ==> r.db.users[j] == db.users[j]
    ensures r.result.Ok? ==> forall j :: 0 <= j < |db.users| && db.users[j].id == user.id ==>
      r.db.users[j] == ConfirmIssued(GenerateLoginCode(n), now)(db.users[j]).(updatedAt := now)
  {
    if TruthyNum(user.confirmCodeCreatedAt) && user.confirmCodeCreatedAt.value + TEN_MINUTES > now then
      Reply(db, Err("Confirm code already sent recently"))
    else
      Reply(db.(users := UpdateUser(db.users, user.id, ConfirmIssued(GenerateLoginCode(n), now), now)), Ok(()))
  }

  // ---------------------------------------------------------------- wipe

  /** The user row after a wrong confirm code. */
  function ConfirmGuessed(tries: int): UserRow -> UserRow {
    (u: UserRow) => u.(confirmCodeTriesLeft := tries - 1)
  }

  function TokenCleared(u: UserRow): UserRow {
    u.(syncToken := None)
  }

  function ConfirmSpent(u: UserRow): UserRow {
    u.(confirmCode := None, confirmCodeTriesLeft := 0, confirmCodeCreatedAt := None)
  }

  function NotOwnedBy(userId: nat): NoteRow -> bool {
    (n: NoteRow) => n.userId != userId
  }

  /** Why `deleteNotesEndpoint` refuses before comparing the code, in the
      order it checks. A code without a creation time never expires. */
  function ConfirmRefusal(user: UserRow, now: int): (m: Option<string>)
    ensures m.None? <==> (TruthyStr(user.confirmCode) && user.confirmCodeTriesLeft > 0 &&
      !(TruthyNum(user.confirmCodeCreatedAt) && user.confirmCodeCreatedAt.value + TEN_MINUTES < now))
  {
    if !TruthyStr(user.confirmCode) then Some("Confirm code not set")
    else if user.confirmCodeTriesLeft <= 0 then Some("Confirm code tries left exceeded")
    else if TruthyNum(user.confirmCodeCreatedAt) && user.confirmCodeCreatedAt.value + TEN_MINUTES < now then
      Some("Confirm code expired")
    else None
  }

  /** `deleteNotesEndpoint`, for the signed-in user `user`: after the
      refusals, a wrong code costs one try and deletes nothing; the right
      code deletes every note of the user, forgets the sync token and
      spends the code, in one transaction. */
  function DeleteNotes(db: ServerDb, user: UserRow, confirm: string, now: int): (r: Reply<()>)
    ensures ConfirmRefusal(user, now).Some? ==> r == Reply(db, Err(ConfirmRefusal(user, now).value))
    ensures r.result.Ok? <==> ConfirmRefusal(user, now).None? && user.confirmCode == Some(confirm)
    ensures r.result.Err? ==> r.db.notes == db.notes
    ensures r.db.sessions == db.sessions && |r.db.users| == |db.users|
    ensures forall j :: 0 <= j < |db.users| && db.users[j].id != user.id ==> r.db.users[j] == db.users[j]
    ensures ConfirmRefusal(user, now).None? && user.confirmCode != Some(confirm) ==>
      r.result == Err("Confirm code does not match") &&
      forall j :: 0 <= j < |db.users| && db.users[j].id == user.id ==>
        r.db.users[j] == db.users[j].(confirmCodeTriesLeft := user.confirmCodeTriesLeft - 1, updatedAt := now)
    ensures r.result.Ok? ==>
      (forall x :: x in r.db.notes <==> x in db.notes && x.userId != user.id) &&
      forall j :: 0 <= j < |db.users| && db.users[j].id == user.id ==>
        r.db.users[j] == ConfirmSpent(TokenCleared(db.users[j])).(updatedAt := now)
  {
    match ConfirmRefusal(user, now)
    case Some(m) => Reply(db, Err(m))
    case None =>
      if confirm != user.confirmCode.value then
        Reply(db.(users := UpdateUser(db.users, user.id, ConfirmGuessed(user.confirmCodeTriesLeft), now)),
              Err("Confirm code does not match"))
      else
        var notes := Filter(db.notes, NotOwnedBy(user.id));
        var users := UpdateUser(UpdateUser(db.users, user.id, TokenCleared, now), user.id, ConfirmSpent, now);
        FilterNotOwned(db.notes, user.id);
        Reply(db.(notes := notes, users := users), Ok(()))
  }

  lemma FilterNotOwned(notes: seq<NoteRow>, userId: nat)
    ensures forall x :: x in Filter(notes, NotOwnedBy(userId)) <==> x in notes && x.userId != userId
  {
    forall x {
      FilterMember(notes, NotOwnedBy(userId), x);
    }
  }

  /** A confirm code is single-use: once it has wiped the notes, the
      signed-in user's refreshed row has no code to confirm with. */
  lemma ConfirmSingleUse(db: ServerDb, user: UserRow, confirm: string, now: int, j: nat, confirm': string, later: int)
    requires DeleteNotes(db, user, confirm, now).result.Ok?
    requires j < |db.users| && db.users[j].id == user.id
    ensures var r := DeleteNotes(db, user, confirm, now);
      DeleteNotes(r.db, r.db.users[j], confirm', later) == Reply(r.db, Err("Confirm code not set"))
  {
  }

  /** After a wipe the user owns no notes, so a pull from any cursor is
      empty and keeps the cursor. The next empty sync adopts whatever token
      the client sends, and answers with data exactly when the client's
      cursor is positive: from cursor 0 the output schema refuses the
      `synced_to` of 0. */
  lemma WipeResetsSync(db: ServerDb, user: UserRow, confirm: string, now: int, j: nat, cursor: int,
                       token: string, later: int)
    requires DeleteNotes(db, user, confirm, now).result.Ok?
    requires j < |db.users| && db.users[j].id == user.id
    ensures var r := DeleteNotes(db, user, confirm, now);
      var p := GetPullData(r.db.notes, cursor, user.id);
      p == PullData([], [], [], cursor) &&
      (SyncNotes(r.db, r.db.users[j], cursor, [], [], [], token, later).result.Ok? <==> cursor > 0) &&
      (cursor <= 0 ==> SyncNotes(r.db, r.db.users[j], cursor, [], [], [], token, later).result == Err(InternalError)) &&
      (cursor >= 0 ==> SyncNotesCorrected(r.db, r.db.users[j], cursor, [], [], [], token, later).result == Ok(p))
  {
    var r := DeleteNotes(db, user, confirm, now);
    NoOwnedEmptyPull(r.db.notes, cursor, user.id);
    EmptySync(r.db, r.db.users[j], cursor, token, later);
    EmptySyncCorrected(r.db, r.db.users[j], cursor, token, later);
  }

  /** An empty push by a user who owns no rows and holds no token pulls
      nothing, and the reply passes the output schema exactly when the
      cursor is positive. */
  lemma EmptySync(db: ServerDb, user: UserRow, cursor: int, token: string, now: int)
    requires forall x :: x in db.notes ==> x.userId != user.id
    requires !TruthyStr(user.syncToken)
    ensures SyncNotes(db, user, cursor, [], [], [], token, now).result ==
      if cursor > 0 then Ok(PullData([], [], [], cursor)) else Err(InternalError)
  {
    NoOwnedEmptyPull(db.notes, cursor, user.id);
    var s := SyncNotes(db, user, cursor, [], [], [], token, now);
    assert PushNotesAsWritten(db.notes, [], [], [], user.id, now).Ok?;
    assert s.db.notes == db.notes;
  }

  /** With the corrected schema, the same empty sync succeeds from every
      cursor the input schema accepts, 0 included: a new or wiped account
      can finish its first sync. */
  lemma EmptySyncCorrected(db: ServerDb, user: UserRow, cursor: int, token: string, now: int)
    requires forall x :: x in db.notes ==> x.userId != user.id
    requires !TruthyStr(user.syncToken)
    ensures SyncNotesCorrected(db, user, cursor, [], [], [], token, now).result ==
      if cursor >= 0 then Ok(PullData([], [], [], cursor)) else Err(InternalError)
  {
    EmptyPush(db.notes, user.id, now);
    EmptyHandle(db, user, cursor, token, now, ValidPullDataCorrected);
    assert ValidPullDataCorrected(PullData([], [], [], cursor)) <==> cursor >= 0;
  }

  /** The handler around an unchanged table, for a user without rows and
      without a token: the empty pull, if the schema accepts it. */
  lemma EmptyHandle(db: ServerDb, user: UserRow, cursor: int, token: string, now: int, valid: PullData -> bool)
    requires forall x :: x in db.notes ==> x.userId != user.id
    requires !TruthyStr(user.syncToken)
    ensures Handle(db, user, cursor, token, now, Ok(db.notes), valid).result ==
      if valid(PullData([], [], [], cursor)) then Ok(PullData([], [], [], cursor)) else Err(InternalError)
  {
    NoOwnedEmptyPull(db.notes, cursor, user.id);
  }

  /** A table without rows of the user yields an empty pull that keeps the
      cursor. */
  lemma NoOwnedEmptyPull(notes: seq<NoteRow>, cursor: int, userId: nat)
    requires forall x :: x in notes ==> x.userId != userId
    ensures var p := GetPullData(notes, cursor, userId);
      p.creates == [] && p.updates == [] && p.deletes == [] && p.syncedTo == cursor
  {
    var p := GetPullData(notes, cursor, userId);
    HeadIn(p.creates);
    HeadIn(p.updates);
    HeadIn(p.deletes);
  }
}
