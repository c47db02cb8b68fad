/** The client's state: the three IndexedDB tables as maps keyed by id, the
    open-note editor slot, the user slice and the sync flags, plus the
    table queries and schema upgrades of the local database. */
module Store {
  import opened Common
  import opened Models

  /** The key and sync token the user holds. */
  datatype KeyTokenPair = KeyTokenPair(cryptoKey: string, syncToken: string)

  datatype User = User(email: string, loggedIn: bool, lastSyncedTo: int, keyTokenPair: Option<KeyTokenPair>)

  datatype DeleteDialog = DeleteDialog(open: bool, code: string, codeLoading: bool, deleteLoading: bool)

  datatype LoginStatus = EmailStep | CodeStep

  /** The note in the editor: its content, title and last edit time. */
  datatype OpenNote = OpenNote(id: Id, title: string, content: Content, updatedAt: int)

  /** `notes`, `note_base_versions` and `labels`. */
  datatype Db = Db(notes: map<Id, Note>, baseVersions: map<Id, Note>, labels: map<Id, Label>)

  datatype Client = Client(
    db: Db,
    openNote: Option<OpenNote>,
    user: User,
    keyDialogOpen: bool,
    deleteDialog: DeleteDialog,
    loginStatus: LoginStatus,
    syncing: bool,
    syncError: Option<string>,
    conflicts: seq<Put>)

  function NoteId(n: Note): Id { n.id }

  function LabelId(l: Label): Id { l.id }

  /** Every record is stored under its own id, the primary key. */
  predicate KeyedBy<T>(m: map<Id, T>, key: T -> Id) {
    forall k :: k in m ==> key(m[k]) == k
  }

  predicate WellKeyed(db: Db) {
    KeyedBy(db.notes, NoteId) && KeyedBy(db.baseVersions, NoteId) && KeyedBy(db.labels, LabelId)
  }

  /** `s` lists, once each and in some order, exactly the records of `m`
      that satisfy `p`: the result of a table query. */
  ghost predicate Lists<T>(m: map<Id, T>, key: T -> Id, p: T -> bool, s: seq<T>) {
    (forall i :: 0 <= i < |s| ==> key(s[i]) in m && m[key(s[i])] == s[i] && p(s[i])) &&
    (forall k :: k in m && p(m[k]) ==> m[k] in s) &&
    (forall i, j :: 0 <= i < j < |s| ==> key(s[i]) != key(s[j]))
  }

  /** A table query: the records satisfying `p`, in unspecified order. */
  method Query<T>(m: map<Id, T>, key: T -> Id, p: T -> bool) returns (s: seq<T>)
    requires KeyedBy(m, key)
    ensures Lists(m, key, p, s)
  {
    var rest := m.Keys;
    s := [];
    while rest != {}
      invariant rest <= m.Keys
      invariant forall i :: 0 <= i < |s| ==> key(s[i]) in m && key(s[i]) !in rest && m[key(s[i])] == s[i] && p(s[i])
      invariant forall k :: k in m && k !in rest && p(m[k]) ==> m[k] in s
      invariant forall i, j :: 0 <= i < j < |s| ==> key(s[i]) != key(s[j])
      decreases rest
    {
      var k :| k in rest;
      if p(m[k]) {
        s := s + [m[k]];
      }
      rest := rest - {k};
    }
  }

  predicate IsDirty(n: Note) { n.state == Dirty }

  /** `dirtyNotesObservable`: the notes whose state is dirty. */
  method DirtyNotes(db: Db) returns (s: seq<Note>)
    requires WellKeyed(db)
    ensures forall n :: n in s <==> n in db.notes.Values && n.state == Dirty
  {
    s := Query(db.notes, NoteId, IsDirty);
  }

  /** A listed record is a stored one, and the listing is keyed like the
      table it came from. */
  lemma ListsIndex<T>(m: map<Id, T>, key: T -> Id, p: T -> bool, s: seq<T>)
    requires Lists(m, key, p, s)
    ensures forall k :: k in IndexBy(s, key) ==> k in m && IndexBy(s, key)[k] == m[k] && p(m[k])
    ensures forall k :: k in m && p(m[k]) && KeyedBy(m, key) ==> k in IndexBy(s, key)
  {
    var ix := IndexBy(s, key);
    forall k | k in m && p(m[k]) && KeyedBy(m, key)
      ensures k in ix
    {
      assert m[k] in s;
    }
  }

  /** A note record as stored by database schema versions 1 to 3: the
      type arrived in version 2 and the title in version 3. */
  datatype StoredNote = StoredNote(id: Id, createdAt: int, updatedAt: int, version: int, state: SyncState,
                                   deletedAt: int, txt: string, kind: Option<NoteType>, title: Option<string>)

  /** The schema-version-2 upgrade: every note becomes a text note. */
  function UpgradeV2(notes: map<Id, StoredNote>): (r: map<Id, StoredNote>)
    ensures r.Keys == notes.Keys
    ensures forall k :: k in r ==> r[k].kind == Some(TextType)
    ensures forall k :: k in r ==> r[k].(kind := notes[k].kind) == notes[k]
  {
    map k | k in notes :: notes[k].(kind := Some(TextType))
  }

  /** The schema-version-3 upgrade: every note gets an empty title. */
  function UpgradeV3(notes: map<Id, StoredNote>): (r: map<Id, StoredNote>)
    ensures r.Keys == notes.Keys
    ensures forall k :: k in r ==> r[k].title == Some("")
    ensures forall k :: k in r ==> r[k].(title := notes[k].title) == notes[k]
  {
    map k | k in notes :: notes[k].(title := Some(""))
  }

  /** The note a complete stored record denotes (only text notes existed
      before the upgrades). */
  function AsNote(s: StoredNote): Note
    requires s.kind == Some(TextType) && s.title.Some?
  {
    Note(s.id, s.createdAt, s.updatedAt, s.version, s.state, s.deletedAt, s.title.value, None, Text(s.txt))
  }

  /** After both upgrades every record of a version-1 table is a complete
      untitled text note with its original text and metadata. */
  lemma UpgradesComplete(notes: map<Id, StoredNote>)
    requires forall k :: k in notes ==> notes[k].kind.None? && notes[k].title.None?
    ensures var r := UpgradeV3(UpgradeV2(notes));
      r.Keys == notes.Keys &&
      forall k :: k in r ==> (r[k].kind == Some(TextType) && r[k].title.Some? &&
        var n := AsNote(r[k]);
        n.id == notes[k].id && n.title == "" && n.content == Text(notes[k].txt) &&
        n.createdAt == notes[k].createdAt && n.updatedAt == notes[k].updatedAt &&
        n.version == notes[k].version && n.state == notes[k].state && n.deletedAt == notes[k].deletedAt)
  {
  }

  /** The schema-version-4 upgrade: the new base-version table receives the
      synced notes. */
  function UpgradeV4(notes: map<Id, Note>): (base: map<Id, Note>)
    ensures base.Keys <= notes.Keys
    ensures forall k :: k in notes ==> (k in base <==> notes[k].state == Synced)
    ensures forall k :: k in base ==> base[k] == notes[k]
  {
    map k | k in notes && notes[k].state == Synced :: notes[k]
  }

  /** The base-version table the upgrade creates holds no dirty note. */
  lemma UpgradeV4Disjoint(notes: map<Id, Note>, dirty: seq<Note>)
    requires KeyedBy(notes, NoteId)
    requires Lists(notes, NoteId, IsDirty, dirty)
    ensures forall i :: 0 <= i < |dirty| ==> dirty[i].id !in UpgradeV4(notes)
    ensures forall k :: k in notes ==> (k in UpgradeV4(notes) <==> notes[k] !in dirty)
  {
    forall k | k in notes && notes[k] in dirty
      ensures notes[k].state == Dirty
    {
      var i :| 0 <= i < |dirty| && dirty[i] == notes[k];
    }
  }
}
