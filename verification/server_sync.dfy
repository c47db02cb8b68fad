/** The sync endpoint: the sync-token binding, the push of creates, updates
    and deletes into the notes table, and the pull of everything changed
    after the client's cursor. A transaction is one function from the table
    before to the table after, or an error that leaves it as it was. */
module ServerSync {
  import opened Common
  import opened ServerSchema

  /** A record as it travels in a sync request or response. */
  datatype Create = Create(id: Id, createdAt: int, updatedAt: int, cipherText: string, iv: string)
  datatype Update = Update(id: Id, cipherText: string, iv: string, updatedAt: int, version: int)
  datatype Delete = Delete(id: Id, deletedAt: int)

  /** A pull: the records changed after the cursor and the new cursor. */
  datatype PullData = PullData(creates: seq<Create>, updates: seq<Update>, deletes: seq<Delete>, syncedTo: int)

  function CreateId(c: Create): Id { c.id }
  function UpdateId(u: Update): Id { u.id }
  function DeleteId(d: Delete): Id { d.id }

  function IdsOf<T(==)>(s: seq<T>, idOf: T -> Id): set<Id> {
    set t | t in s :: idOf(t)
  }

  lemma IdsOfSnoc<T>(s: seq<T>, x: T, idOf: T -> Id)
    ensures IdsOf(s + [x], idOf) == IdsOf(s, idOf) + {idOf(x)}
  {
    assert forall t :: t in s + [x] <==> t in s || t == x;
  }

  /** The last item of `s` with the given id: the one whose write lands
      when a loop writes every item in order. */
  function LastById<T(==)>(s: seq<T>, idOf: T -> Id, id: Id): (r: Option<T>)
    ensures r.Some? <==> id in IdsOf(s, idOf)
    ensures r.Some? ==> r.value in s && idOf(r.value) == id
  {
    if |s| == 0 then None
    else if idOf(s[|s| - 1]) == id then Some(s[|s| - 1])
    else
      var r := LastById(s[..|s| - 1], idOf, id);
      assert s == s[..|s| - 1] + [s[|s| - 1]];
      r
  }

  /** A filter that keeps every item with a given id keeps the last of
      them. */
  lemma {:induction false} LastByIdFilter<T>(s: seq<T>, p: T -> bool, idOf: T -> Id, id: Id)
    requires forall t :: idOf(t) == id ==> p(t)
    ensures LastById(Filter(s, p), idOf, id) == LastById(s, idOf, id)
    decreases |s|
  {
    if |s| > 0 {
      var front, x := s[..|s| - 1], s[|s| - 1];
      assert s == front + [x];
      FilterAppend(front, [x], p);
      LastByIdFilter(front, p, idOf, id);
      var f := Filter(front, p);
      if p(x) {
        assert Filter([x], p) == [x];
        assert (f + [x])[..|f|] == f;
      } else {
        assert Filter([x], p) == [];
        assert f + [] == f;
      }
    }
  }

  // ---------------------------------------------------------------- push

  /** The version a create-update writes: one more than the version of the
      first selected row with that id. Every create-update's id is among the
      selected rows, so the fallback is never taken. */
  function ExistingVersion(existing: seq<NoteRow>, id: Id): int {
    match Find(existing, (r: NoteRow) => r.clientsideId == id)
    case Some(r) => r.version
    case None => 0
  }

  /** The creates whose ids no selected row has: these are inserted. */
  function NewCreates(creates: seq<Create>, existing: seq<NoteRow>): (r: seq<Create>)
    ensures forall c :: c in r <==> c in creates && c.id !in set e | e in existing :: e.clientsideId
  {
    var existingIds := set e | e in existing :: e.clientsideId;
    var r := Filter(creates, IdOutside(existingIds));
    forall c ensures c in r <==> c in creates && c.id !in existingIds {
      FilterMember(creates, IdOutside(existingIds), c);
    }
    r
  }

  /** The creates whose ids a selected row has: these overwrite. */
  function CreateUpdates(creates: seq<Create>, existing: seq<NoteRow>): (r: seq<Create>)
    ensures forall c :: c in r <==> c in creates && c.id in set e | e in existing :: e.clientsideId
  {
    var existingIds := set e | e in existing :: e.clientsideId;
    var r := Filter(creates, IdInside(existingIds));
    forall c ensures c in r <==> c in creates && c.id in existingIds {
      FilterMember(creates, IdInside(existingIds), c);
    }
    r
  }

  function IdOutside(ids: set<Id>): Create -> bool { (c: Create) => c.id !in ids }
  function IdInside(ids: set<Id>): Create -> bool { (c: Create) => c.id in ids }

  /** Each of the two parts keeps, for its ids, the last create with that
      id. */
  lemma SplitKeepsLast(creates: seq<Create>, existing: seq<NoteRow>, id: Id)
    ensures var existingIds := set e | e in existing :: e.clientsideId;
      (id in existingIds ==> LastById(CreateUpdates(creates, existing), CreateId, id) == LastById(creates, CreateId, id)) &&
      (id !in existingIds ==> LastById(NewCreates(creates, existing), CreateId, id) == LastById(creates, CreateId, id))
  {
    var existingIds := set e | e in existing :: e.clientsideId;
    if id in existingIds {
      LastByIdFilter(creates, IdInside(existingIds), CreateId, id);
    } else {
      LastByIdFilter(creates, IdOutside(existingIds), CreateId, id);
    }
  }

  predicate DistinctIds(cs: seq<Create>) {
    forall i, j :: 0 <= i < j < |cs| ==> cs[i].id != cs[j].id
  }

  function InsertRow(userId: nat, now: int): Create -> NoteRow {
    (c: Create) => InsertedNote(userId, c.id, c.cipherText, c.iv, c.createdAt, c.updatedAt, now)
  }

  /** The rewrite of a create for an id that already exists: content and
      client timestamps from the create, version one more than before. */
  function Overwrite(cu: Create, version: int): NoteRow -> NoteRow {
    (r: NoteRow) => r.(cipherText := Some(cu.cipherText), iv := Some(cu.iv), clientsideCreatedAt := cu.createdAt,
                       clientsideUpdatedAt := cu.updatedAt, version := version)
  }

  /** The loop over create-updates, one `UPDATE` per item, in order. */
  function ApplyCreateUpdates(notes: seq<NoteRow>, userId: nat, cus: seq<Create>, existing: seq<NoteRow>, now: int): (r: seq<NoteRow>)
    ensures |r| == |notes|
    ensures forall i :: 0 <= i < |notes| ==> NoteKey(r[i]) == NoteKey(notes[i])
    ensures forall i :: 0 <= i < |notes| && (notes[i].userId != userId || notes[i].clientsideId !in IdsOf(cus, CreateId)) ==>
      r[i] == notes[i]
    ensures forall i :: 0 <= i < |notes| && notes[i].userId == userId && notes[i].clientsideId in IdsOf(cus, CreateId) ==>
      var c := LastById(cus, CreateId, notes[i].clientsideId).value;
      r[i] == Overwrite(c, ExistingVersion(existing, c.id) + 1)(notes[i]).(serversideUpdatedAt := now)
    decreases |cus|
  {
    if |cus| == 0 then notes
    else
      var front := cus[..|cus| - 1];
      var cu := cus[|cus| - 1];
      assert cus == front + [cu];
      IdsOfSnoc(front, cu, CreateId);
      var prev := ApplyCreateUpdates(notes, userId, front, existing, now);
      UpdateNote(prev, userId, cu.id, Overwrite(cu, ExistingVersion(existing, cu.id) + 1), now)
  }

  /** The rewrite of an update: content and the client's update time. */
  function Rewrite(u: Update): NoteRow -> NoteRow {
    (r: NoteRow) => r.(cipherText := Some(u.cipherText), iv := Some(u.iv), clientsideUpdatedAt := u.updatedAt)
  }

  /** The loop over updates. The version column is never written. */
  function ApplyUpdates(notes: seq<NoteRow>, userId: nat, updates: seq<Update>, now: int): (r: seq<NoteRow>)
    ensures |r| == |notes|
    ensures forall i :: 0 <= i < |notes| ==> NoteKey(r[i]) == NoteKey(notes[i])
    ensures forall i :: 0 <= i < |notes| && (notes[i].userId != userId || notes[i].clientsideId !in IdsOf(updates, UpdateId)) ==>
      r[i] == notes[i]
    ensures forall i :: 0 <= i < |notes| && notes[i].userId == userId && notes[i].clientsideId in IdsOf(updates, UpdateId) ==>
      var u := LastById(updates, UpdateId, notes[i].clientsideId).value;
      r[i] == Rewrite(u)(notes[i]).(serversideUpdatedAt := now)
    decreases |updates|
  {
    if |updates| == 0 then notes
    else
      var front := updates[..|updates| - 1];
      var u := updates[|updates| - 1];
      assert updates == front + [u];
      IdsOfSnoc(front, u, UpdateId);
      UpdateNote(ApplyUpdates(notes, userId, front, now), userId, u.id, Rewrite(u), now)
  }

  /** The rewrite of a delete: the content goes, both deletion stamps are set. */
  function Erase(d: Delete, now: int): NoteRow -> NoteRow {
    (r: NoteRow) => r.(clientsideDeletedAt := Some(d.deletedAt), iv := None, cipherText := None, serversideDeletedAt := Some(now))
  }

  /** The loop over deletes. */
  function ApplyDeletes(notes: seq<NoteRow>, userId: nat, deletes: seq<Delete>, now: int): (r: seq<NoteRow>)
    ensures |r| == |notes|
    ensures forall i :: 0 <= i < |notes| ==> NoteKey(r[i]) == NoteKey(notes[i])
    ensures forall i :: 0 <= i < |notes| && (notes[i].userId != userId || notes[i].clientsideId !in IdsOf(deletes, DeleteId)) ==>
      r[i] == notes[i]
    ensures forall i :: 0 <= i < |notes| && notes[i].userId == userId && notes[i].clientsideId in IdsOf(deletes, DeleteId) ==>
      var d := LastById(deletes, DeleteId, notes[i].clientsideId).value;
      r[i] == Erase(d, now)(notes[i]).(serversideUpdatedAt := now)
    decreases |deletes|
  {
    if |deletes| == 0 then notes
    else
      var front := deletes[..|deletes| - 1];
      var d := deletes[|deletes| - 1];
      assert deletes == front + [d];
      IdsOfSnoc(front, d, DeleteId);
      UpdateNote(ApplyDeletes(notes, userId, front, now), userId, d.id, Erase(d, now), now)
  }

  /** The create step given the selected rows: insert the creates no
      selected row has (an insert whose ids repeat violates the unique key
      and aborts), then overwrite the rows the others name. */
  function WriteCreates(notes: seq<NoteRow>, userId: nat, creates: seq<Create>, existing: seq<NoteRow>, now: int): (r: Result<seq<NoteRow>>)
    ensures r.Err? <==> !DistinctIds(NewCreates(creates, existing))
  {
    var added := NewCreates(creates, existing);
    if !DistinctIds(added) then Err("duplicate key value violates unique constraint \"user_client_id\"")
    else
      var inserted := notes + Map(added, InsertRow(userId, now));
      Ok(ApplyCreateUpdates(inserted, userId, CreateUpdates(creates, existing), existing, now))
  }

  /** The rows before the inserts keep their keys and other users' rows are
      unchanged; the inserted rows follow, in order. */
  lemma WriteCreatesLayout(notes: seq<NoteRow>, userId: nat, creates: seq<Create>, existing: seq<NoteRow>, now: int)
    requires WriteCreates(notes, userId, creates, existing, now).Ok?
    ensures var w := WriteCreates(notes, userId, creates, existing, now).value;
      var added := NewCreates(creates, existing);
      |w| == |notes| + |added| &&
      (forall i :: 0 <= i < |notes| ==> NoteKey(w[i]) == NoteKey(notes[i])) &&
      (forall i :: 0 <= i < |notes| && notes[i].userId != userId ==> w[i] == notes[i]) &&
      (forall i :: 0 <= i < |notes| ==> w[i].clientsideDeletedAt == notes[i].clientsideDeletedAt &&
                                           w[i].serversideDeletedAt == notes[i].serversideDeletedAt) &&
      (forall k :: 0 <= k < |added| ==> w[|notes| + k] == InsertRow(userId, now)(added[k]))
  {
    var added := NewCreates(creates, existing);
    var inserted := notes + Map(added, InsertRow(userId, now));
    var cus := CreateUpdates(creates, existing);
    var w := ApplyCreateUpdates(inserted, userId, cus, existing, now);
    forall k | 0 <= k < |added| ensures w[|notes| + k] == InsertRow(userId, now)(added[k]) {
      assert added[k] in added;
      assert inserted[|notes| + k].clientsideId !in IdsOf(cus, CreateId);
    }
    assert forall i :: 0 <= i < |notes| ==> inserted[i] == notes[i];
  }

  /** The content a create leaves in a row of this user: that of the last
      create with its id. */
  predicate HoldsCreate(n: NoteRow, c: Create) {
    n.cipherText == Some(c.cipherText) && n.iv == Some(c.iv) &&
    n.clientsideCreatedAt == c.createdAt && n.clientsideUpdatedAt == c.updatedAt
  }

  /** After the corrected create step, every row of this user that a create
      names, inserted or overwritten, holds the last such create's content
      and client timestamps. */
  lemma WriteCreatesContent(notes: seq<NoteRow>, userId: nat, creates: seq<Create>, now: int, w: seq<NoteRow>)
    requires WriteCreates(notes, userId, creates, OwnExisting(notes, userId, creates), now) == Ok(w)
    ensures forall i :: 0 <= i < |w| && w[i].userId == userId && w[i].clientsideId in IdsOf(creates, CreateId) ==>
      HoldsCreate(w[i], LastById(creates, CreateId, w[i].clientsideId).value)
  {
    OverwrittenContent(notes, userId, creates, now, w);
    InsertedContent(notes, userId, creates, now, w);
  }

  /** A row of this user that was there before and that a create names is
      overwritten by the last create with its id. */
  lemma OverwrittenContent(notes: seq<NoteRow>, userId: nat, creates: seq<Create>, now: int, w: seq<NoteRow>)
    requires WriteCreates(notes, userId, creates, OwnExisting(notes, userId, creates), now) == Ok(w)
    ensures forall i :: 0 <= i < |notes| && i < |w| && w[i].userId == userId && w[i].clientsideId in IdsOf(creates, CreateId) ==>
      HoldsCreate(w[i], LastById(creates, CreateId, w[i].clientsideId).value)
  {
    var existing := OwnExisting(notes, userId, creates);
    var added := NewCreates(creates, existing);
    var cus := CreateUpdates(creates, existing);
    var inserted := notes + Map(added, InsertRow(userId, now));
    WriteCreatesLayout(notes, userId, creates, existing, now);
    assert w == ApplyCreateUpdates(inserted, userId, cus, existing, now);
    forall i | 0 <= i < |notes| && i < |w| && w[i].userId == userId && w[i].clientsideId in IdsOf(creates, CreateId)
      ensures HoldsCreate(w[i], LastById(creates, CreateId, w[i].clientsideId).value)
    {
      var id := w[i].clientsideId;
      assert NoteKey(w[i]) == NoteKey(notes[i]);
      assert inserted[i] == notes[i];
      assert notes[i] in existing;
      var c :| c in creates && CreateId(c) == id;
      assert c in cus;
      assert id in IdsOf(cus, CreateId);
      SplitKeepsLast(creates, existing, id);
    }
  }

  /** Each inserted row holds its create, which is the last create with
      that id: the inserted creates have distinct ids. */
  lemma InsertedContent(notes: seq<NoteRow>, userId: nat, creates: seq<Create>, now: int, w: seq<NoteRow>)
    requires WriteCreates(notes, userId, creates, OwnExisting(notes, userId, creates), now) == Ok(w)
    ensures forall i :: |notes| <= i < |w| ==> HoldsCreate(w[i], LastById(creates, CreateId, w[i].clientsideId).value)
  {
    var existing := OwnExisting(notes, userId, creates);
    var existingIds := set e | e in existing :: e.clientsideId;
    var added := NewCreates(creates, existing);
    var cus := CreateUpdates(creates, existing);
    var inserted := notes + Map(added, InsertRow(userId, now));
    assert w == ApplyCreateUpdates(inserted, userId, cus, existing, now);
    forall i | |notes| <= i < |w| ensures HoldsCreate(w[i], LastById(creates, CreateId, w[i].clientsideId).value) {
      var k := i - |notes|;
      var c := added[k];
      assert inserted[i] == InsertRow(userId, now)(c);
      assert c in added && c.id !in existingIds;
      assert c.id !in IdsOf(cus, CreateId);
      InsertedIsLast(creates, existing, k);
    }
  }

  /** A create that is inserted is the last create with its id. */
  lemma InsertedIsLast(creates: seq<Create>, existing: seq<NoteRow>, k: nat)
    requires DistinctIds(NewCreates(creates, existing)) && k < |NewCreates(creates, existing)|
    ensures var c := NewCreates(creates, existing)[k];
      LastById(creates, CreateId, c.id) == Some(c)
  {
    var added := NewCreates(creates, existing);
    var c := added[k];
    assert c in added;
    assert c.id in IdsOf(added, CreateId);
    var last := LastById(added, CreateId, c.id).value;
    var j :| 0 <= j < |added| && added[j] == last;
    assert j == k;
    SplitKeepsLast(creates, existing, c.id);
  }

  /** When the selection includes this user's rows that a create names, the
      inserts cannot clash with a row already present. */
  lemma WriteCreatesUnique(notes: seq<NoteRow>, userId: nat, creates: seq<Create>, existing: seq<NoteRow>, now: int)
    requires forall j :: 0 <= j < |notes| && notes[j].userId == userId && notes[j].clientsideId in IdsOf(creates, CreateId) ==>
      notes[j] in existing
    requires NotesUnique(notes)
    requires WriteCreates(notes, userId, creates, existing, now).Ok?
    ensures NotesUnique(WriteCreates(notes, userId, creates, existing, now).value)
  {
    var added := NewCreates(creates, existing);
    var inserted := notes + Map(added, InsertRow(userId, now));
    var existingIds := set e | e in existing :: e.clientsideId;
    forall i, j | 0 <= i < j < |inserted| ensures NoteKey(inserted[i]) != NoteKey(inserted[j]) {
      if j >= |notes| {
        var c := added[j - |notes|];
        assert c in added;
        assert c.id in IdsOf(creates, CreateId) && c.id !in existingIds;
        if i < |notes| && notes[i].userId == userId && notes[i].clientsideId in IdsOf(creates, CreateId) {
          assert notes[i] in existing;
        }
      }
    }
  }

  /** The table after the creates, updates and deletes, for a given
      selection of existing rows. */
  function PushFrom(notes: seq<NoteRow>, creates: seq<Create>, updates: seq<Update>, deletes: seq<Delete>,
                    userId: nat, now: int, existing: seq<NoteRow>): (r: Result<seq<NoteRow>>)
    ensures r.Err? <==> !DistinctIds(NewCreates(creates, existing))
  {
    match WriteCreates(notes, userId, creates, existing, now)
    case Err(m) => Err(m)
    case Ok(written) => Ok(ApplyDeletes(ApplyUpdates(written, userId, updates, now), userId, deletes, now))
  }

  /** What every push keeps: rows are only appended, other users' rows are
      untouched, appended rows are this user's, and the unique key and the
      tombstone stamps survive. */
  predicate PushKeeps(notes: seq<NoteRow>, r: seq<NoteRow>, userId: nat) {
    |r| >= |notes| &&
    (forall i :: 0 <= i < |notes| ==> NoteKey(r[i]) == NoteKey(notes[i])) &&
    (forall i :: 0 <= i < |notes| && notes[i].userId != userId ==> r[i] == notes[i]) &&
    (forall i :: |notes| <= i < |r| ==> r[i].userId == userId) &&
    (NotesUnique(notes) ==> NotesUnique(r)) &&
    (TombstonesStamped(notes) ==> TombstonesStamped(r))
  }

  /** What the updates and deletes keep, row by row. */
  predicate SameShape(w: seq<NoteRow>, r: seq<NoteRow>, userId: nat) {
    |r| == |w| &&
    (forall i :: 0 <= i < |w| ==> NoteKey(r[i]) == NoteKey(w[i]) && r[i].version == w[i].version) &&
    (forall i :: 0 <= i < |w| && w[i].userId != userId ==> r[i] == w[i]) &&
    (NotesUnique(w) ==> NotesUnique(r)) &&
    (TombstonesStamped(w) ==> TombstonesStamped(r))
  }

  /** What the updates and deletes write, row by row. */
  predicate Landed(w: seq<NoteRow>, r: seq<NoteRow>, userId: nat, updates: seq<Update>, deletes: seq<Delete>, now: int)
    requires |r| == |w|
  {
    (forall i :: 0 <= i < |w| && w[i].userId == userId && w[i].clientsideId in IdsOf(deletes, DeleteId) ==>
      r[i].cipherText.None? && r[i].iv.None? && r[i].serversideDeletedAt == Some(now) &&
      r[i].clientsideDeletedAt == Some(LastById(deletes, DeleteId, w[i].clientsideId).value.deletedAt)) &&
    (forall i :: (0 <= i < |w| && w[i].userId == userId &&
                  w[i].clientsideId in IdsOf(updates, UpdateId) && w[i].clientsideId !in IdsOf(deletes, DeleteId)) ==>
        var u := LastById(updates, UpdateId, w[i].clientsideId).value;
        r[i].cipherText == Some(u.cipherText) && r[i].iv == Some(u.iv) && r[i].clientsideUpdatedAt == u.updatedAt) &&
    (forall i :: 0 <= i < |w| && w[i].clientsideId !in IdsOf(updates, UpdateId) && w[i].clientsideId !in IdsOf(deletes, DeleteId) ==>
      r[i] == w[i])
  }

  lemma UpdatesDeletesSound(w: seq<NoteRow>, userId: nat, updates: seq<Update>, deletes: seq<Delete>, now: int)
    ensures var r := ApplyDeletes(ApplyUpdates(w, userId, updates, now), userId, deletes, now);
      SameShape(w, r, userId) && Landed(w, r, userId, updates, deletes, now)
  {
    var u := ApplyUpdates(w, userId, updates, now);
    var r := ApplyDeletes(u, userId, deletes, now);
    assert forall i :: 0 <= i < |w| ==> NoteKey(r[i]) == NoteKey(u[i]) == NoteKey(w[i]);
  }

  lemma KeepsCompose(notes: seq<NoteRow>, w: seq<NoteRow>, r: seq<NoteRow>, userId: nat)
    requires PushKeeps(notes, w, userId) && SameShape(w, r, userId)
    ensures PushKeeps(notes, r, userId)
  {
  }

  /** The create step keeps what a push must keep. */
  lemma WriteCreatesKeeps(notes: seq<NoteRow>, userId: nat, creates: seq<Create>, existing: seq<NoteRow>, now: int)
    requires forall j :: 0 <= j < |notes| && notes[j].userId == userId && notes[j].clientsideId in IdsOf(creates, CreateId) ==>
      notes[j] in existing
    requires WriteCreates(notes, userId, creates, existing, now).Ok?
    ensures PushKeeps(notes, WriteCreates(notes, userId, creates, existing, now).value, userId)
  {
    var w := WriteCreates(notes, userId, creates, existing, now).value;
    WriteCreatesLayout(notes, userId, creates, existing, now);
    if NotesUnique(notes) {
      WriteCreatesUnique(notes, userId, creates, existing, now);
    }
    forall i | |notes| <= i < |w| ensures w[i].userId == userId && w[i].serversideDeletedAt.None? {
      assert w[|notes| + (i - |notes|)] == w[i];
    }
    if TombstonesStamped(notes) {
      forall i | 0 <= i < |w| && w[i].serversideDeletedAt.Some? ensures w[i].clientsideDeletedAt.Some? {
        assert i < |notes|;
      }
    }
  }

  lemma PushFromKeeps(notes: seq<NoteRow>, creates: seq<Create>, updates: seq<Update>, deletes: seq<Delete>,
                      userId: nat, now: int, existing: seq<NoteRow>)
    requires forall j :: 0 <= j < |notes| && notes[j].userId == userId && notes[j].clientsideId in IdsOf(creates, CreateId) ==>
      notes[j] in existing
    requires PushFrom(notes, creates, updates, deletes, userId, now, existing).Ok?
    ensures PushKeeps(notes, PushFrom(notes, creates, updates, deletes, userId, now, existing).value, userId)
  {
    var w := WriteCreates(notes, userId, creates, existing, now).value;
    WriteCreatesKeeps(notes, userId, creates, existing, now);
    UpdatesDeletesSound(w, userId, updates, deletes, now);
    KeepsCompose(notes, w, PushFrom(notes, creates, updates, deletes, userId, now, existing).value, userId);
  }

  /** `pushNotes` as written: the existing rows are selected by id alone,
      across all users, and when every create names an existing id the
      transaction returns before the updates and deletes. Without creates
      the create step selects nothing and writes nothing. */
  function PushNotesAsWritten(notes: seq<NoteRow>, creates: seq<Create>, updates: seq<Update>, deletes: seq<Delete>,
                              userId: nat, now: int): (r: Result<seq<NoteRow>>)
    ensures |creates| > 0 && |NewCreates(creates, AnyExisting(notes, creates))| == 0 ==> r == Ok(notes)
    ensures r.Err? <==> |creates| > 0 && !DistinctIds(NewCreates(creates, AnyExisting(notes, creates)))
    ensures r.Ok? ==> PushKeeps(notes, r.value, userId)
  {
    if |creates| > 0 then
      var existing := AnyExisting(notes, creates);
      if |NewCreates(creates, existing)| == 0 then Ok(notes)
      else
        var r := PushFrom(notes, creates, updates, deletes, userId, now, existing);
        if r.Ok? then PushFromKeeps(notes, creates, updates, deletes, userId, now, existing); r else r
    else
      assert NewCreates(creates, []) == [];
      var r := PushFrom(notes, creates, updates, deletes, userId, now, []);
      PushFromKeeps(notes, creates, updates, deletes, userId, now, []);
      r
  }

  /** The rows that a create names, whoever they belong to: the selection
      `pushNotes` makes. */
  function AnyExisting(notes: seq<NoteRow>, creates: seq<Create>): (r: seq<NoteRow>)
    ensures forall e :: e in r <==> e in notes && e.clientsideId in IdsOf(creates, CreateId)
  {
    var p := (n: NoteRow) => n.clientsideId in IdsOf(creates, CreateId);
    forall e ensures e in Filter(notes, p) <==> e in notes && p(e) {
      FilterMember(notes, p, e);
    }
    Filter(notes, p)
  }

  /** The rows of this user that a create names. */
  function OwnExisting(notes: seq<NoteRow>, userId: nat, creates: seq<Create>): (r: seq<NoteRow>)
    ensures forall e :: e in r <==> e in notes && e.userId == userId && e.clientsideId in IdsOf(creates, CreateId)
  {
    var p := (n: NoteRow) => n.userId == userId && n.clientsideId in IdsOf(creates, CreateId);
    forall e ensures e in Filter(notes, p) <==> e in notes && p(e) {
      FilterMember(notes, p, e);
    }
    Filter(notes, p)
  }

  /** What the corrected push promises for the records it was sent: every
      create has a row; a created row that is neither updated nor deleted
      holds the last create's content and client timestamps; every deleted
      row is a tombstone with the client's deletion time; every updated and
      not deleted row holds the last update's content, iv and client update
      time; inserted rows have version 1; and with a unique key a create for
      an existing row bumps its version by one while updates and deletes
      leave it. */
  predicate PushApplied(notes: seq<NoteRow>, creates: seq<Create>, updates: seq<Update>, deletes: seq<Delete>,
                        userId: nat, now: int, r: seq<NoteRow>)
    requires |r| >= |notes|
  {
    (forall c :: c in creates ==> HasNote(r, userId, c.id)) &&
    (forall i :: (0 <= i < |r| && r[i].userId == userId && r[i].clientsideId in IdsOf(creates, CreateId) &&
                  r[i].clientsideId !in IdsOf(updates, UpdateId) && r[i].clientsideId !in IdsOf(deletes, DeleteId)) ==>
        HoldsCreate(r[i], LastById(creates, CreateId, r[i].clientsideId).value)) &&
    (forall i :: 0 <= i < |r| && r[i].userId == userId && r[i].clientsideId in IdsOf(deletes, DeleteId) ==>
      r[i].cipherText.None? && r[i].iv.None? && r[i].serversideDeletedAt == Some(now) &&
      r[i].clientsideDeletedAt == Some(LastById(deletes, DeleteId, r[i].clientsideId).value.deletedAt)) &&
    (forall i :: (0 <= i < |r| && r[i].userId == userId &&
                  r[i].clientsideId in IdsOf(updates, UpdateId) && r[i].clientsideId !in IdsOf(deletes, DeleteId)) ==>
        var u := LastById(updates, UpdateId, r[i].clientsideId).value;
        r[i].cipherText == Some(u.cipherText) && r[i].iv == Some(u.iv) && r[i].clientsideUpdatedAt == u.updatedAt) &&
    (forall i :: |notes| <= i < |r| ==> r[i].version == 1) &&
    (NotesUnique(notes) ==> forall i :: 0 <= i < |notes| && notes[i].userId == userId ==>
      r[i].version == notes[i].version + (if notes[i].clientsideId in IdsOf(creates, CreateId) then 1 else 0))
  }

  /** A push with nothing in it leaves the table as it was. */
  lemma EmptyPush(notes: seq<NoteRow>, userId: nat, now: int)
    ensures PushNotes(notes, [], [], [], userId, now) == Ok(notes)
  {
    var existing := OwnExisting(notes, userId, []);
    assert NewCreates([], existing) == [] && CreateUpdates([], existing) == [];
    assert notes + Map([], InsertRow(userId, now)) == notes;
  }

  /** `pushNotes` as evidently intended: the existing rows are this user's,
      and the updates and deletes run whatever the creates were. */
  function PushNotes(notes: seq<NoteRow>, creates: seq<Create>, updates: seq<Update>, deletes: seq<Delete>,
                     userId: nat, now: int): (r: Result<seq<NoteRow>>)
    ensures r.Err? <==> !DistinctIds(NewCreates(creates, OwnExisting(notes, userId, creates)))
    ensures r.Ok? ==> PushKeeps(notes, r.value, userId)
    ensures r.Ok? ==> PushApplied(notes, creates, updates, deletes, userId, now, r.value)
  {
    var existing := OwnExisting(notes, userId, creates);
    var r := PushFrom(notes, creates, updates, deletes, userId, now, existing);
    if r.Err? then r
    else
      PushFromKeeps(notes, creates, updates, deletes, userId, now, existing);
      PushFromApplied(notes, creates, updates, deletes, userId, now);
      r
  }

  lemma PushFromApplied(notes: seq<NoteRow>, creates: seq<Create>, updates: seq<Update>, deletes: seq<Delete>, userId: nat, now: int)
    requires PushFrom(notes, creates, updates, deletes, userId, now, OwnExisting(notes, userId, creates)).Ok?
    ensures var r := PushFrom(notes, creates, updates, deletes, userId, now, OwnExisting(notes, userId, creates)).value;
      |r| >= |notes| && PushApplied(notes, creates, updates, deletes, userId, now, r)
  {
    var existing := OwnExisting(notes, userId, creates);
    var w := WriteCreates(notes, userId, creates, existing, now).value;
    var r := PushFrom(notes, creates, updates, deletes, userId, now, existing).value;
    WriteCreatesLayout(notes, userId, creates, existing, now);
    UpdatesDeletesSound(w, userId, updates, deletes, now);
    AppliedCompose(notes, creates, updates, deletes, userId, now, w, r);
  }

  lemma AppliedCompose(notes: seq<NoteRow>, creates: seq<Create>, updates: seq<Update>, deletes: seq<Delete>, userId: nat, now: int,
                       w: seq<NoteRow>, r: seq<NoteRow>)
    requires WriteCreates(notes, userId, creates, OwnExisting(notes, userId, creates), now) == Ok(w)
    requires |w| >= |notes| && SameShape(w, r, userId) && Landed(w, r, userId, updates, deletes, now)
    ensures |r| >= |notes| && PushApplied(notes, creates, updates, deletes, userId, now, r)
  {
    PushStoresCreates(notes, userId, creates, now, w, r);
    PushVersions(notes, userId, creates, now, w, r);
    WriteCreatesContent(notes, userId, creates, now, w);
    forall i | (0 <= i < |r| && r[i].userId == userId && r[i].clientsideId in IdsOf(creates, CreateId) &&
                r[i].clientsideId !in IdsOf(updates, UpdateId) && r[i].clientsideId !in IdsOf(deletes, DeleteId))
      ensures HoldsCreate(r[i], LastById(creates, CreateId, r[i].clientsideId).value)
    {
      assert NoteKey(r[i]) == NoteKey(w[i]);
      assert r[i] == w[i];
    }
  }

  /** Every create has a row of this user after the corrected push: either
      one of the user's rows already had the id, or it was inserted. */
  lemma PushStoresCreates(notes: seq<NoteRow>, userId: nat, creates: seq<Create>, now: int, w: seq<NoteRow>, r: seq<NoteRow>)
    requires WriteCreates(notes, userId, creates, OwnExisting(notes, userId, creates), now) == Ok(w)
    requires |r| == |w| && forall i :: 0 <= i < |w| ==> NoteKey(r[i]) == NoteKey(w[i])
    ensures forall c :: c in creates ==> HasNote(r, userId, c.id)
  {
    var existing := OwnExisting(notes, userId, creates);
    var added := NewCreates(creates, existing);
    WriteCreatesLayout(notes, userId, creates, existing, now);
    forall c | c in creates ensures HasNote(r, userId, c.id) {
      assert c.id in IdsOf(creates, CreateId);
      if c in added {
        var k :| 0 <= k < |added| && added[k] == c;
        assert NoteKey(r[|notes| + k]) == (userId, c.id);
      } else {
        var e :| e in existing && e.clientsideId == c.id;
        var j :| 0 <= j < |notes| && notes[j] == e;
        assert NoteKey(r[j]) == (userId, c.id);
      }
    }
  }

  /** With a unique key, the row a create-update copies its version from is
      the row it overwrites. */
  lemma OwnExistingVersion(notes: seq<NoteRow>, userId: nat, creates: seq<Create>, i: nat)
    requires NotesUnique(notes) && i < |notes| && notes[i].userId == userId
    requires notes[i].clientsideId in IdsOf(creates, CreateId)
    ensures ExistingVersion(OwnExisting(notes, userId, creates), notes[i].clientsideId) == notes[i].version
  {
    var existing := OwnExisting(notes, userId, creates);
    var id := notes[i].clientsideId;
    assert notes[i] in existing;
    var f := Find(existing, (r: NoteRow) => r.clientsideId == id);
    assert f.Some?;
    var e := f.value;
    var j :| 0 <= j < |notes| && notes[j] == e;
    assert NoteKey(notes[j]) == NoteKey(notes[i]);
  }

  lemma PushVersions(notes: seq<NoteRow>, userId: nat, creates: seq<Create>, now: int, w: seq<NoteRow>, r: seq<NoteRow>)
    requires WriteCreates(notes, userId, creates, OwnExisting(notes, userId, creates), now) == Ok(w)
    requires |r| == |w| && forall i :: 0 <= i < |w| ==> r[i].version == w[i].version
    ensures forall i :: |notes| <= i < |r| ==> r[i].version == 1
    ensures NotesUnique(notes) ==> forall i :: 0 <= i < |notes| && notes[i].userId == userId ==>
      r[i].version == notes[i].version + (if notes[i].clientsideId in IdsOf(creates, CreateId) then 1 else 0)
  {
    var existing := OwnExisting(notes, userId, creates);
    var added := NewCreates(creates, existing);
    WriteCreatesLayout(notes, userId, creates, existing, now);
    forall i | |notes| <= i < |r| ensures r[i].version == 1 {
      assert w[|notes| + (i - |notes|)] == w[i];
    }
    if NotesUnique(notes) {
      var inserted := notes + Map(added, InsertRow(userId, now));
      var cus := CreateUpdates(creates, existing);
      forall i | 0 <= i < |notes| && notes[i].userId == userId
        ensures w[i].version == notes[i].version + (if notes[i].clientsideId in IdsOf(creates, CreateId) then 1 else 0)
      {
        assert inserted[i] == notes[i];
        var id := notes[i].clientsideId;
        if id in IdsOf(creates, CreateId) {
          assert notes[i] in existing;
          var c :| c in creates && c.id == id;
          assert c in cus;
          assert id in IdsOf(cus, CreateId);
          OwnExistingVersion(notes, userId, creates, i);
        } else {
          assert forall c :: c in cus ==> c in creates;
          assert id !in IdsOf(cus, CreateId);
        }
      }
    }
  }

  /** The early return: a re-sent create for a note the server already has,
      together with a delete of that note, leaves the table as it was, so
      the delete is lost; the corrected push applies it. */
  lemma EarlyReturnSkipsDeletes()
    ensures var row := NoteRow(1, "a", Some("c1"), Some("iv1"), 1, 0, 0, None, 0, 0, None);
      var creates := [Create("a", 0, 1, "c2", "iv2")];
      var deletes := [Delete("a", 5)];
      PushNotesAsWritten([row], creates, [], deletes, 1, 10) == Ok([row]) &&
      PushNotes([row], creates, [], deletes, 1, 10).Ok? &&
      PushNotes([row], creates, [], deletes, 1, 10).value[0].cipherText.None?
  {
    var row := NoteRow(1, "a", Some("c1"), Some("iv1"), 1, 0, 0, None, 0, 0, None);
    var creates := [Create("a", 0, 1, "c2", "iv2")];
    var deletes := [Delete("a", 5)];
    assert creates == [] + [creates[0]] && deletes == [] + [deletes[0]];
    IdsOfSnoc([], creates[0], CreateId);
    IdsOfSnoc([], deletes[0], DeleteId);
    assert row in AnyExisting([row], creates);
    assert NewCreates(creates, AnyExisting([row], creates)) == [];
    assert row in OwnExisting([row], 1, creates);
    assert NewCreates(creates, OwnExisting([row], 1, creates)) == [];
    var r := PushNotes([row], creates, [], deletes, 1, 10);
    assert NoteKey(r.value[0]) == (1, "a");
  }

  /** The selection by id alone: a create whose id only another user's row
      has is neither inserted nor applied, so this user ends up without the
      note; the corrected push stores it. */
  lemma CrossUserCreateDropped()
    ensures var other := NoteRow(2, "a", Some("c1"), Some("iv1"), 1, 0, 0, None, 0, 0, None);
      var creates := [Create("a", 0, 1, "c2", "iv2"), Create("b", 0, 1, "c3", "iv3")];
      PushNotesAsWritten([other], creates, [], [], 1, 10).Ok? &&
      !HasNote(PushNotesAsWritten([other], creates, [], [], 1, 10).value, 1, "a") &&
      PushNotes([other], creates, [], [], 1, 10).Ok? &&
      HasNote(PushNotes([other], creates, [], [], 1, 10).value, 1, "a")
  {
    var other := NoteRow(2, "a", Some("c1"), Some("iv1"), 1, 0, 0, None, 0, 0, None);
    var ca, cb := Create("a", 0, 1, "c2", "iv2"), Create("b", 0, 1, "c3", "iv3");
    CrossUserAsWritten(other, ca, cb);
    CrossUserCorrected(other, ca, cb);
  }

  lemma CreatePairIds(ca: Create, cb: Create)
    ensures IdsOf([ca, cb], CreateId) == {ca.id, cb.id}
  {
    assert [ca, cb] == [ca] + [cb] && [ca] == [] + [ca];
    IdsOfSnoc([], ca, CreateId);
    IdsOfSnoc([ca], cb, CreateId);
  }

  /** The selection as written for that push: the other user's row counts
      as existing, so only the second create is new. */
  lemma CrossUserSelection(other: NoteRow, ca: Create, cb: Create)
    requires other == NoteRow(2, "a", Some("c1"), Some("iv1"), 1, 0, 0, None, 0, 0, None)
    requires ca == Create("a", 0, 1, "c2", "iv2") && cb == Create("b", 0, 1, "c3", "iv3")
    ensures AnyExisting([other], [ca, cb]) == [other]
    ensures NewCreates([ca, cb], [other]) == [cb]
  {
    var creates := [ca, cb];
    CreatePairIds(ca, cb);
    var existing := AnyExisting([other], creates);
    assert existing == [other] by {
      assert other in existing;
      assert forall e :: e in existing ==> e == other;
    }
    assert (set e | e in existing :: e.clientsideId) == {"a"};
    assert ca !in NewCreates(creates, existing);
    assert cb in NewCreates(creates, existing);
  }

  lemma CrossUserAsWritten(other: NoteRow, ca: Create, cb: Create)
    requires other == NoteRow(2, "a", Some("c1"), Some("iv1"), 1, 0, 0, None, 0, 0, None)
    requires ca == Create("a", 0, 1, "c2", "iv2") && cb == Create("b", 0, 1, "c3", "iv3")
    ensures PushNotesAsWritten([other], [ca, cb], [], [], 1, 10).Ok?
    ensures !HasNote(PushNotesAsWritten([other], [ca, cb], [], [], 1, 10).value, 1, "a")
  {
    var creates := [ca, cb];
    CrossUserSelection(other, ca, cb);
    var existing := [other];
    WriteCreatesLayout([other], 1, creates, existing, 10);
    var w := WriteCreates([other], 1, creates, existing, 10).value;
    UpdatesDeletesSound(w, 1, [], [], 10);
    var r := PushNotesAsWritten([other], creates, [], [], 1, 10).value;
    assert |r| == 2 && NoteKey(r[0]) == (2, "a") && NoteKey(r[1]) == (1, "b");
  }

  lemma CrossUserCorrected(other: NoteRow, ca: Create, cb: Create)
    requires other == NoteRow(2, "a", Some("c1"), Some("iv1"), 1, 0, 0, None, 0, 0, None)
    requires ca == Create("a", 0, 1, "c2", "iv2") && cb == Create("b", 0, 1, "c3", "iv3")
    ensures PushNotes([other], [ca, cb], [], [], 1, 10).Ok?
    ensures HasNote(PushNotes([other], [ca, cb], [], [], 1, 10).value, 1, "a")
  {
    var creates := [ca, cb];
    CreatePairIds(ca, cb);
    var existing := OwnExisting([other], 1, creates);
    assert existing == [] by {
      assert forall e :: e !in existing;
    }
    assert NewCreates(creates, []) == creates;
    assert ca in creates;
  }

  // ---------------------------------------------------------------- pull

  /** A row pulled as a create: this user's, created on the server after
      the cursor, with content. */
  predicate PulledCreate(n: NoteRow, cursor: int, userId: nat) {
    n.userId == userId && n.serversideCreatedAt > cursor && n.cipherText.Some? && n.iv.Some?
  }

  /** A row pulled as an update: this user's, changed on the server after
      the cursor, with content, and not already pulled as a create. */
  predicate PulledUpdate(n: NoteRow, cursor: int, userId: nat, createIds: set<Id>) {
    n.userId == userId && n.serversideUpdatedAt > cursor && n.clientsideId !in createIds &&
    n.cipherText.Some? && n.iv.Some?
  }

  /** A row pulled as a delete: this user's, deleted on the server after
      the cursor. */
  predicate PulledDelete(n: NoteRow, cursor: int, userId: nat) {
    n.userId == userId && n.serversideDeletedAt.Some? && n.serversideDeletedAt.value > cursor
  }

  /** The wire form of a row; the cipher and iv of a pulled row are present. */
  function ToCreate(n: NoteRow): Create {
    Create(n.clientsideId, n.clientsideCreatedAt, n.clientsideUpdatedAt, n.cipherText.GetOr(""), n.iv.GetOr(""))
  }

  function ToUpdate(n: NoteRow): Update {
    Update(n.clientsideId, n.cipherText.GetOr(""), n.iv.GetOr(""), n.clientsideUpdatedAt, n.version)
  }

  /** A pulled delete carries the client's deletion time, present on every
      row the server stamped as deleted. */
  function ToDelete(n: NoteRow): Delete {
    Delete(n.clientsideId, n.clientsideDeletedAt.GetOr(0))
  }

  /** `Math.max(start, ...xs)`. */
  function MaxFrom(start: int, xs: seq<int>): (m: int)
    ensures m >= start && forall i :: 0 <= i < |xs| ==> xs[i] <= m
    ensures m == start || m in xs
  {
    if |xs| == 0 then start else Max(MaxFrom(start, xs[..|xs| - 1]), xs[|xs| - 1])
  }

  /** The rows selected by `p`, converted by `f`: a selected row's
      conversion is there, and only those. */
  function Pull<T>(notes: seq<NoteRow>, p: NoteRow -> bool, f: NoteRow -> T): (r: seq<T>)
    ensures forall n :: n in notes && p(n) ==> f(n) in r
    ensures forall t :: t in r ==> exists n :: n in notes && p(n) && t == f(n)
  {
    var sel := Filter(notes, p);
    var r := Map(sel, f);
    forall n | n in notes && p(n) ensures f(n) in r {
      FilterMember(notes, p, n);
      var k :| 0 <= k < |sel| && sel[k] == n;
      assert r[k] == f(n);
    }
    forall t | t in r ensures exists n :: n in notes && p(n) && t == f(n) {
      var k :| 0 <= k < |r| && r[k] == t;
      FilterMember(notes, p, sel[k]);
      assert sel[k] in sel;
    }
    r
  }

  /** `getPullData`: everything of this user created, updated or deleted on
      the server after the cursor, and the latest of those stamps as the
      new cursor. */
  function GetPullData(notes: seq<NoteRow>, cursor: int, userId: nat): (p: PullData)
    ensures p.syncedTo >= cursor
    ensures forall n :: n in notes && PulledCreate(n, cursor, userId) ==> ToCreate(n) in p.creates && n.serversideCreatedAt <= p.syncedTo
    ensures forall c :: c in p.creates ==> exists n :: n in notes && PulledCreate(n, cursor, userId) && c == ToCreate(n)
    ensures forall n :: n in notes && PulledUpdate(n, cursor, userId, IdsOf(p.creates, CreateId)) ==>
      ToUpdate(n) in p.updates && n.serversideUpdatedAt <= p.syncedTo
    ensures forall u :: u in p.updates ==>
      exists n :: n in notes && PulledUpdate(n, cursor, userId, IdsOf(p.creates, CreateId)) && u == ToUpdate(n)
    ensures forall n :: n in notes && PulledDelete(n, cursor, userId) ==>
      ToDelete(n) in p.deletes && n.serversideDeletedAt.value <= p.syncedTo
    ensures forall d :: d in p.deletes ==> exists n :: n in notes && PulledDelete(n, cursor, userId) && d == ToDelete(n)
    ensures p.syncedTo == cursor ||
      exists n :: n in notes &&
        ((PulledCreate(n, cursor, userId) && n.serversideCreatedAt == p.syncedTo) ||
         (PulledUpdate(n, cursor, userId, IdsOf(p.creates, CreateId)) && n.serversideUpdatedAt == p.syncedTo) ||
         (PulledDelete(n, cursor, userId) && n.serversideDeletedAt.value == p.syncedTo))
  {
    var isCreate := (n: NoteRow) => PulledCreate(n, cursor, userId);
    var creates := Pull(notes, isCreate, ToCreate);
    var createIds := IdsOf(creates, CreateId);
    var isUpdate := (n: NoteRow) => PulledUpdate(n, cursor, userId, createIds);
    var updates := Pull(notes, isUpdate, ToUpdate);
    var isDelete := (n: NoteRow) => PulledDelete(n, cursor, userId);
    var deletes := Pull(notes, isDelete, ToDelete);
    var syncedTo := SyncedTo(notes, cursor, isCreate, isUpdate, isDelete);
    PullData(creates, updates, deletes, syncedTo)
  }

  /** `Math.max(last_synced_to, maxCreatedAt, maxUpdatedAt, maxDeletedAt)`
      over the rows the three selections pick: at least the cursor and every
      picked stamp, and either the cursor or one of those stamps. */
  function SyncedTo(notes: seq<NoteRow>, cursor: int, isCreate: NoteRow -> bool, isUpdate: NoteRow -> bool,
                    isDelete: NoteRow -> bool): (m: int)
    ensures m >= cursor
    ensures forall n :: n in notes && isCreate(n) ==> n.serversideCreatedAt <= m
    ensures forall n :: n in notes && isUpdate(n) ==> n.serversideUpdatedAt <= m
    ensures forall n :: n in notes && isDelete(n) ==> n.serversideDeletedAt.GetOr(0) <= m
    ensures m == cursor ||
      exists n :: n in notes &&
        ((isCreate(n) && n.serversideCreatedAt == m) || (isUpdate(n) && n.serversideUpdatedAt == m) ||
         (isDelete(n) && n.serversideDeletedAt.GetOr(0) == m))
  {
    var createdAt := (n: NoteRow) => n.serversideCreatedAt;
    var updatedAt := (n: NoteRow) => n.serversideUpdatedAt;
    var deletedAt := (n: NoteRow) => n.serversideDeletedAt.GetOr(0);
    var m1 := MaxFrom(cursor, Map(Filter(notes, isCreate), createdAt));
    var m2 := MaxFrom(m1, Map(Filter(notes, isUpdate), updatedAt));
    var m := MaxFrom(m2, Map(Filter(notes, isDelete), deletedAt));
    StampBound(notes, isCreate, createdAt, m);
    StampBound(notes, isUpdate, updatedAt, m);
    StampBound(notes, isDelete, deletedAt, m);
    if m != m2 then
      StampWitness(notes, isDelete, deletedAt, m);
      m
    else if m2 != m1 then
      StampWitness(notes, isUpdate, updatedAt, m);
      m
    else if m1 != cursor then
      StampWitness(notes, isCreate, createdAt, m);
      m
    else m
  }

  /** A stamp of a selected row is the stamp of some row the selection holds. */
  lemma StampWitness(notes: seq<NoteRow>, p: NoteRow -> bool, stamp: NoteRow -> int, v: int)
    requires v in Map(Filter(notes, p), stamp)
    ensures exists n :: n in notes && p(n) && stamp(n) == v
  {
    var sel := Filter(notes, p);
    var k :| 0 <= k < |sel| && Map(sel, stamp)[k] == v;
    FilterMember(notes, p, sel[k]);
    assert sel[k] in sel;
  }

  /** A bound on every selected row's stamp bounds every row selected. */
  lemma StampBound(notes: seq<NoteRow>, p: NoteRow -> bool, stamp: NoteRow -> int, m: int)
    requires forall i :: 0 <= i < |Filter(notes, p)| ==> Map(Filter(notes, p), stamp)[i] <= m
    ensures forall n :: n in notes && p(n) ==> stamp(n) <= m
  {
    var sel := Filter(notes, p);
    forall n | n in notes && p(n) ensures stamp(n) <= m {
      FilterMember(notes, p, n);
      var k :| 0 <= k < |sel| && sel[k] == n;
      assert Map(sel, stamp)[k] == stamp(n);
    }
  }

  lemma SameKeySame(notes: seq<NoteRow>, m: NoteRow, n: NoteRow)
    requires NotesUnique(notes) && m in notes && n in notes && NoteKey(m) == NoteKey(n)
    ensures m == n
  {
    var i :| 0 <= i < |notes| && notes[i] == m;
    var j :| 0 <= j < |notes| && notes[j] == n;
    assert !(i < j) && !(j < i);
  }

  /** No change is lost: with a unique key, every row of this user with
      content that was created or updated on the server after the cursor
      comes back with its current content, as a create or as an update. */
  lemma PullDeliversEveryChange(notes: seq<NoteRow>, cursor: int, userId: nat)
    requires NotesUnique(notes)
    ensures var p := GetPullData(notes, cursor, userId);
      forall n :: (n in notes && n.userId == userId && n.cipherText.Some? && n.iv.Some? &&
                   (n.serversideCreatedAt > cursor || n.serversideUpdatedAt > cursor)) ==>
        ToCreate(n) in p.creates || ToUpdate(n) in p.updates
  {
    var p := GetPullData(notes, cursor, userId);
    forall n | n in notes && n.userId == userId && n.cipherText.Some? && n.iv.Some? &&
               (n.serversideCreatedAt > cursor || n.serversideUpdatedAt > cursor)
      ensures ToCreate(n) in p.creates || ToUpdate(n) in p.updates
    {
      if n.clientsideId in IdsOf(p.creates, CreateId) {
        var c :| c in p.creates && c.id == n.clientsideId;
        var m :| m in notes && PulledCreate(m, cursor, userId) && c == ToCreate(m);
        SameKeySame(notes, m, n);
      }
    }
  }

  /** Pulling again from the returned cursor brings no creates and no
      deletes, and re-sends as updates only rows the first pull sent as
      creates (their later server updates are not folded into the cursor). */
  lemma PullAgainFromSyncedTo(notes: seq<NoteRow>, cursor: int, userId: nat)
    ensures var p := GetPullData(notes, cursor, userId);
      var q := GetPullData(notes, p.syncedTo, userId);
      (forall c :: c !in q.creates) && (forall d :: d !in q.deletes) &&
      (forall u :: u in q.updates ==> u.id in IdsOf(p.creates, CreateId))
  {
    var p := GetPullData(notes, cursor, userId);
    var q := GetPullData(notes, p.syncedTo, userId);
    forall n | n in notes
      ensures !PulledCreate(n, p.syncedTo, userId) && !PulledDelete(n, p.syncedTo, userId)
      ensures PulledUpdate(n, p.syncedTo, userId, IdsOf(q.creates, CreateId)) ==> n.clientsideId in IdsOf(p.creates, CreateId)
    {
      if PulledCreate(n, cursor, userId) {
        assert n.serversideCreatedAt <= p.syncedTo;
      }
      if PulledDelete(n, cursor, userId) {
        assert n.serversideDeletedAt.value <= p.syncedTo;
      }
      if PulledUpdate(n, cursor, userId, IdsOf(p.creates, CreateId)) {
        assert n.serversideUpdatedAt <= p.syncedTo;
      }
    }
  }

  // ---------------------------------------------------------------- handler

  /** The output schema's rule for the pulled items: positive stamps and
      versions. */
  predicate ItemsValid(p: PullData) {
    (forall c :: c in p.creates ==> c.createdAt > 0 && c.updatedAt > 0) &&
    (forall u :: u in p.updates ==> u.updatedAt > 0 && u.version > 0) &&
    (forall d :: d in p.deletes ==> d.deletedAt > 0)
  }

  /** The endpoint's output schema as written: a positive `synced_to`. An
      empty pull from cursor 0 keeps `synced_to` at 0 and fails it. */
  predicate ValidPullData(p: PullData) {
    p.syncedTo > 0 && ItemsValid(p)
  }

  /** The output schema as evidently intended: `synced_to` non-negative, the
      bound the input schema puts on `last_synced_to`, so that the cursor a
      client starts from can come back. */
  predicate ValidPullDataCorrected(p: PullData) {
    p.syncedTo >= 0 && ItemsValid(p)
  }

  /** What the client sees when the handler itself throws a 500 or its
      output fails the schema. */
  const InternalError: string := "Internal Server Error"

  /** `syncNotesEndpoint` around a given push outcome on the notes table: a
      user without a sync token adopts the client's (outside the push
      transaction, so it stays even when the push fails); a user with a
      different one is refused before anything is written. Then the push,
      then the pull from the client's cursor, whose result is checked
      against the output schema `valid` after the push has been committed. The
      token write touches only `users`, so the push may be computed on the
      table as it was. */
  function Handle(db: ServerDb, user: UserRow, lastSyncedTo: int, syncToken: string, now: int,
                  pushed: Result<seq<NoteRow>>, valid: PullData -> bool): (r: Reply<PullData>)
    ensures TruthyStr(user.syncToken) && syncToken != user.syncToken.value ==> r == Reply(db, Err("Invalid sync token"))
    ensures TruthyStr(user.syncToken) && syncToken == user.syncToken.value ==> r.db.users == db.users
    ensures !TruthyStr(user.syncToken) ==>
      |r.db.users| == |db.users| &&
      (forall i :: 0 <= i < |db.users| && db.users[i].id == user.id ==> r.db.users[i].syncToken == Some(syncToken)) &&
      (forall i :: 0 <= i < |db.users| && db.users[i].id != user.id ==> r.db.users[i] == db.users[i])
    ensures r.db.sessions == db.sessions
    ensures pushed.Err? ==> r.db.notes == db.notes && r.result.Err?
    ensures pushed.Ok? && r.result != Err("Invalid sync token") ==> r.db.notes == pushed.value
    ensures r.result.Ok? ==> r.result.value == GetPullData(r.db.notes, lastSyncedTo, user.id) && valid(r.result.value)
    ensures pushed.Ok? && !(TruthyStr(user.syncToken) && syncToken != user.syncToken.value) ==>
      (r.result.Ok? <==> valid(GetPullData(pushed.value, lastSyncedTo, user.id))) &&
      (r.result.Err? ==> r.result == Err(InternalError))
  {
    if TruthyStr(user.syncToken) && syncToken != user.syncToken.value then Reply(db, Err("Invalid sync token"))
    else
      var db1 := if TruthyStr(user.syncToken) then db
                 else db.(users := UpdateUser(db.users, user.id, (u: UserRow) => u.(syncToken := Some(syncToken)), now));
      match pushed
      case Err(m) => Reply(db1, Err(m))
      case Ok(notes) =>
        var data := GetPullData(notes, lastSyncedTo, user.id);
        if valid(data) then Reply(db1.(notes := notes), Ok(data))
        else Reply(db1.(notes := notes), Err(InternalError))
  }

  /** `syncNotesEndpoint` as written: the push is `pushNotes` with its early
      return and its selection by id alone. A reply with data leaves every
      other user's rows alone, and a request whose creates all name existing
      rows writes no note at all. */
  function SyncNotes(db: ServerDb, user: UserRow, lastSyncedTo: int, creates: seq<Create>, updates: seq<Update>,
                     deletes: seq<Delete>, syncToken: string, now: int): (r: Reply<PullData>)
    ensures TruthyStr(user.syncToken) && syncToken != user.syncToken.value ==> r == Reply(db, Err("Invalid sync token"))
    ensures r.db.sessions == db.sessions
    ensures r.result.Err? && r.result != Err(InternalError) ==> r.db.notes == db.notes
    ensures r.result.Ok? ==>
      PushKeeps(db.notes, r.db.notes, user.id) &&
      r.result.value == GetPullData(r.db.notes, lastSyncedTo, user.id) &&
      r.result.value.syncedTo >= lastSyncedTo && ValidPullData(r.result.value)
    ensures |creates| > 0 && |NewCreates(creates, AnyExisting(db.notes, creates))| == 0 ==> r.db.notes == db.notes
  {
    Handle(db, user, lastSyncedTo, syncToken, now, PushNotesAsWritten(db.notes, creates, updates, deletes, user.id, now), ValidPullData)
  }

  /** The handler with the corrected push and the corrected output schema:
      a reply with data means every create, update and delete landed on
      this user's rows, and a `synced_to` of 0 is a valid answer. */
  function SyncNotesCorrected(db: ServerDb, user: UserRow, lastSyncedTo: int, creates: seq<Create>, updates: seq<Update>,
                              deletes: seq<Delete>, syncToken: string, now: int): (r: Reply<PullData>)
    ensures TruthyStr(user.syncToken) && syncToken != user.syncToken.value ==> r == Reply(db, Err("Invalid sync token"))
    ensures r.db.sessions == db.sessions
    ensures r.result.Err? && r.result != Err(InternalError) ==> r.db.notes == db.notes
    ensures r.result.Ok? ==>
      PushKeeps(db.notes, r.db.notes, user.id) &&
      PushApplied(db.notes, creates, updates, deletes, user.id, now, r.db.notes) &&
      r.result.value == GetPullData(r.db.notes, lastSyncedTo, user.id) &&
      r.result.value.syncedTo >= lastSyncedTo && ValidPullDataCorrected(r.result.value)
  {
    Handle(db, user, lastSyncedTo, syncToken, now, PushNotes(db.notes, creates, updates, deletes, user.id, now), ValidPullDataCorrected)
  }

  /** With no creates, both pushes take the same path, so the two handlers
      leave the same database. Their replies differ only where the written
      schema refuses a pull whose `synced_to` is 0: the corrected handler
      returns that pull and the written one fails with a 500. */
  lemma HandlersAgreeWithoutCreates(db: ServerDb, user: UserRow, lastSyncedTo: int, updates: seq<Update>,
                                    deletes: seq<Delete>, syncToken: string, now: int)
    ensures var a := SyncNotes(db, user, lastSyncedTo, [], updates, deletes, syncToken, now);
      var b := SyncNotesCorrected(db, user, lastSyncedTo, [], updates, deletes, syncToken, now);
      a.db == b.db &&
      (a.result == b.result <==> !(b.result.Ok? && b.result.value.syncedTo == 0)) &&
      (a.result != b.result ==> a.result == Err(InternalError))
  {
    PushesAgreeWithoutCreates(db.notes, updates, deletes, user.id, now);
  }

  /** Without creates, the as-written and the corrected push coincide. */
  lemma PushesAgreeWithoutCreates(notes: seq<NoteRow>, updates: seq<Update>, deletes: seq<Delete>, userId: nat, now: int)
    ensures PushNotesAsWritten(notes, [], updates, deletes, userId, now) == PushNotes(notes, [], updates, deletes, userId, now)
  {
    HeadIn(OwnExisting(notes, userId, []));
    assert IdsOf([], CreateId) == {};
  }

  /** The token binding: once a first sync has stored a token, a sync that
      presents another token is refused and changes nothing. */
  lemma AdoptedTokenBinds(db: ServerDb, i: nat, token: string, other: string, now: int, later: int,
                          cursor: int, creates: seq<Create>, updates: seq<Update>, deletes: seq<Delete>)
    requires i < |db.users| && !TruthyStr(db.users[i].syncToken)
    requires token != "" && other != token
    ensures var first := SyncNotes(db, db.users[i], cursor, creates, updates, deletes, token, now);
      first.db.users[i].syncToken == Some(token) &&
      SyncNotes(first.db, first.db.users[i], cursor, creates, updates, deletes, other, later) ==
        Reply(first.db, Err("Invalid sync token"))
  {
  }
}
