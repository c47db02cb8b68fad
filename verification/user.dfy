/** Account actions of the client: the login-dialog step, the encryption-key
    dialog and key rotation, and wiping the server's notes with a
    confirmation code. Server round trips are given as their answers;
    key generation is given as the generated pair. */
module User {
  import opened Common
  import opened Strings
  import opened Models
  import opened Encryption
  import opened Store

  /** The answer of a request to the server. */
  datatype ApiResult = Success | Failure(statusCode: int, error: string)

  /** The encryption-key dialog: the `key:token:checksum` string it shows. */
  datatype KeyDialog = KeyDialog(open: bool, keyTokenPair: string, visible: bool)

  /** `switchLoginStatus`: flips between the e-mail step and the code step. */
  function SwitchLoginStatus(c: Client): (r: Client)
    ensures r.loginStatus != c.loginStatus
    ensures r == c.(loginStatus := r.loginStatus)
  {
    c.(loginStatus := if c.loginStatus == EmailStep then CodeStep else EmailStep)
  }

  lemma SwitchLoginStatusTwice(c: Client)
    ensures SwitchLoginStatus(SwitchLoginStatus(c)) == c
  {
  }

  /** `openEncryptionKeyDialog`: shows the held pair, or a freshly generated
      one when there is none, with its checksum. */
  function OpenEncryptionKeyDialog(c: Client, kc: KeyCodec, generated: KeyTokenPair): (d: KeyDialog)
    ensures d.open && !d.visible
    ensures var p := c.user.keyTokenPair.GetOr(generated);
      d.keyTokenPair == KeyPairString(p.cryptoKey, p.syncToken, CalcChecksum(kc, p.cryptoKey, p.syncToken))
  {
    var p := c.user.keyTokenPair.GetOr(generated);
    KeyDialog(true, KeyPairString(p.cryptoKey, p.syncToken, CalcChecksum(kc, p.cryptoKey, p.syncToken)), false)
  }

  /** What a new key does to the note table: tombstones are dropped (the new
      key cannot sync their deletion) and every other note becomes dirty so
      that it is uploaded again under the new key. */
  function ResetForNewKey(notes: map<Id, Note>): (r: map<Id, Note>)
    ensures forall k :: k in r <==> k in notes && notes[k].deletedAt == 0
    ensures forall k :: k in r ==> r[k] == notes[k].(state := Dirty)
  {
    map k | k in notes && notes[k].deletedAt == 0 :: notes[k].(state := Dirty)
  }

  /** Whether a key and token differ from the held pair (always, when none
      is held). */
  predicate IsNewKey(held: Option<KeyTokenPair>, key: string, token: string) {
    held.None? || held.value.cryptoKey != key || held.value.syncToken != token
  }

  /** `saveEncryptionKey`. */
  function SaveEncryptionKey(c: Client, kc: KeyCodec, s: string): (r: Client)
    ensures !IsValidKeyTokenPair(kc, s) ==> r == c
    ensures IsValidKeyTokenPair(kc, s) ==>
      var parts := Split(s, ':');
      var key, token := parts[0], parts[1];
      (!IsNewKey(c.user.keyTokenPair, key, token) ==> r == c.(keyDialogOpen := false)) &&
      (IsNewKey(c.user.keyTokenPair, key, token) ==>
        r == c.(db := c.db.(notes := ResetForNewKey(c.db.notes)),
                user := c.user.(lastSyncedTo := 0, keyTokenPair := Some(KeyTokenPair(key, token))),
                keyDialogOpen := false))
  {
    if !IsValidKeyTokenPair(kc, s) then c
    else
      var parts := Split(s, ':');
      var key, token := Field(parts, 0), Field(parts, 1);
      if key == "" || token == "" then c
      else if IsNewKey(c.user.keyTokenPair, key, token) then
        c.(db := c.db.(notes := ResetForNewKey(c.db.notes)),
           user := c.user.(lastSyncedTo := 0, keyTokenPair := Some(KeyTokenPair(key, token))),
           keyDialogOpen := false)
      else c.(keyDialogOpen := false)
  }

  /** A pair is well-formed when its key and token have the base64 shape and
      lengths the validation demands. */
  predicate WellFormedPair(p: KeyTokenPair) {
    IsBase64(p.cryptoKey) && |p.cryptoKey| == 44 && IsBase64(p.syncToken) && |p.syncToken| == 24
  }

  /** Saving the string the key dialog shows: for the held pair it only
      closes the dialog; for a freshly generated pair it installs that pair
      and resets the notes for it. */
  lemma SaveShownKey(c: Client, kc: KeyCodec, generated: KeyTokenPair)
    requires WellFormedPair(c.user.keyTokenPair.GetOr(generated))
    ensures var d := OpenEncryptionKeyDialog(c, kc, generated);
      var r := SaveEncryptionKey(c, kc, d.keyTokenPair);
      (c.user.keyTokenPair.Some? ==> r == c.(keyDialogOpen := false)) &&
      (c.user.keyTokenPair.None? ==>
        r.user.keyTokenPair == Some(generated) && r.user.lastSyncedTo == 0 && r.db.notes == ResetForNewKey(c.db.notes))
  {
    var p := c.user.keyTokenPair.GetOr(generated);
    var checksum := CalcChecksum(kc, p.cryptoKey, p.syncToken);
    KeyPairStringValid(kc, p.cryptoKey, p.syncToken, checksum);
    KeyPairStringSplit(p.cryptoKey, p.syncToken, checksum);
  }

  /** `openDeleteServerNotesDialog`, once the code request has answered:
      the dialog opens with an empty code; a 401 logs the user out. */
  function OpenDeleteServerNotesDialog(c: Client, res: ApiResult): (r: Client)
    ensures !c.user.loggedIn ==> r == c
    ensures c.user.loggedIn ==>
      r.deleteDialog == DeleteDialog(true, "", false, false) &&
      r.user.loggedIn == !(res.Failure? && res.statusCode == 401) &&
      r == c.(deleteDialog := r.deleteDialog, user := c.user.(loggedIn := r.user.loggedIn))
  {
    if !c.user.loggedIn then c
    else
      c.(deleteDialog := DeleteDialog(true, "", false, false),
         user := c.user.(loggedIn := !(res.Failure? && res.statusCode == 401)))
  }

  /** `closeDeleteServerNotesDialog`: refused while a request is loading. */
  function CloseDeleteServerNotesDialog(c: Client): (r: Client)
    ensures c.deleteDialog.deleteLoading || c.deleteDialog.codeLoading ==> r == c
    ensures !(c.deleteDialog.deleteLoading || c.deleteDialog.codeLoading) ==>
      r == c.(deleteDialog := c.deleteDialog.(open := false))
  {
    if c.deleteDialog.deleteLoading || c.deleteDialog.codeLoading then c
    else c.(deleteDialog := c.deleteDialog.(open := false))
  }

  /** `deleteServerNotesAndGenerateNewKey`, once the delete request has
      answered. `newPair` is the newly generated key and token. */
  function DeleteServerNotesAndGenerateNewKey(c: Client, res: ApiResult, newPair: KeyTokenPair): (r: Client)
    ensures c.deleteDialog.code == "" || c.deleteDialog.deleteLoading || !c.user.loggedIn ==> r == c
    ensures !(c.deleteDialog.code == "" || c.deleteDialog.deleteLoading || !c.user.loggedIn) && res.Failure? ==>
      r == c.(user := c.user.(loggedIn := res.statusCode != 401))
    ensures !(c.deleteDialog.code == "" || c.deleteDialog.deleteLoading || !c.user.loggedIn) && res.Success? ==>
      r == c.(db := c.db.(notes := ResetForNewKey(c.db.notes)),
              deleteDialog := c.deleteDialog.(deleteLoading := false, open := false),
              user := c.user.(lastSyncedTo := 0, keyTokenPair := Some(newPair)))
  {
    if c.deleteDialog.code == "" || c.deleteDialog.deleteLoading || !c.user.loggedIn then c
    else
      match res
      case Failure(status, _) => c.(user := c.user.(loggedIn := status != 401))
      case Success =>
        c.(db := c.db.(notes := ResetForNewKey(c.db.notes)),
           deleteDialog := c.deleteDialog.(deleteLoading := false, open := false),
           user := c.user.(lastSyncedTo := 0, keyTokenPair := Some(newPair)))
  }

  /** After a key change the next sync uploads every remaining note: none is
      a tombstone, all are dirty, and the cursor restarts from 0. */
  lemma NewKeyUploadsEverything(c: Client, kc: KeyCodec, s: string)
    requires IsValidKeyTokenPair(kc, s)
    requires IsNewKey(c.user.keyTokenPair, Split(s, ':')[0], Split(s, ':')[1])
    ensures var r := SaveEncryptionKey(c, kc, s);
      r.user.lastSyncedTo == 0 &&
      (forall k :: k in r.db.notes ==> r.db.notes[k].state == Dirty && r.db.notes[k].deletedAt == 0) &&
      (forall k :: k in c.db.notes && c.db.notes[k].deletedAt == 0 ==>
        k in r.db.notes && r.db.notes[k].content == c.db.notes[k].content && r.db.notes[k].version == c.db.notes[k].version)
  {
    ValidPairShape(kc, s);
  }
}
