/** Importing notes into the local store: the app's own JSON export format
    (an upsert that respects newer local edits) and a Google Keep takeout
    archive. File reading, JSON parsing and zip extraction are abstract. */
module NoteImport {
  import opened Common
  import opened Models
  import opened Store

  /** One entry of an import file, with the fields frontend/src/state/import.ts
      reads. The import schema (frontend/src/business/importNotesSchema.ts)
      declares no `title` and strips unknown keys, and its todos carry only
      `done` and `txt`. So under that schema `title` is always `None` (the
      note gets ''), and every todo lacks an id and a stamp and gets fresh
      ones. The model keeps the fields because the code reads them. The
      schema's `created_at` is not read, so it is not here. */
  datatype ImportEntry = ImportEntry(id: Option<Id>, txt: Option<string>, updatedAt: Option<int>,
                                     todos: Option<seq<Todo>>, title: Option<string>)

  /** The state of an import dialog: whether it is open, the chosen file (its
      text) and the error shown. */
  datatype ImportDialog = ImportDialog(open: bool, file: Option<string>, error: Option<string>)

  /** Where an import leaves the note table and its dialog. */
  datatype Imported = Imported(notes: map<Id, Note>, dialog: ImportDialog)

  const ClosedDialog := ImportDialog(false, None, None)

  /** Whether an entry is written over the local note with the same id:
      there is none, it is a tombstone, or the entry is strictly newer. */
  predicate Applies(notes: map<Id, Note>, id: Id, updatedAt: int) {
    id !in notes || notes[id].deletedAt != 0 || updatedAt > notes[id].updatedAt
  }

  /** The version an applied entry gets: 1 for a new note, the local version
      for a dirty one, one more for a synced one. */
  function ImportVersion(notes: map<Id, Note>, id: Id): (v: int)
    ensures id !in notes ==> v == 1
    ensures id in notes && notes[id].state == Dirty ==> v == notes[id].version
    ensures id in notes && notes[id].state == Synced ==> v == notes[id].version + 1
  {
    if id !in notes then 1 else if notes[id].state == Dirty then notes[id].version else notes[id].version + 1
  }

  /** Gives a todo the id and timestamp it lacks. */
  function StampTodo(t: Todo, freshId: Id, now: int): (r: Todo)
    ensures r.id.Some? && r.updatedAt.Some?
    ensures r.done == t.done && r.txt == t.txt
    ensures t.id.Some? ==> r.id == t.id
    ensures t.updatedAt.Some? ==> r.updatedAt == t.updatedAt
  {
    t.(id := Some(t.id.GetOr(freshId)), updatedAt := Some(t.updatedAt.GetOr(now)))
  }

  function StampTodos(todos: seq<Todo>, freshId: nat -> Id, now: int): (r: seq<Todo>)
    ensures |r| == |todos|
    ensures forall i :: 0 <= i < |todos| ==> r[i] == StampTodo(todos[i], freshId(i), now)
    ensures forall t :: t in r ==> t.id.Some? && t.updatedAt.Some?
  {
    seq(|todos|, i requires 0 <= i < |todos| => StampTodo(todos[i], freshId(i), now))
  }

  /** The note one entry produces, if any. `freshNote` is the id drawn for an
      entry without one; `freshTodo(j)` the id drawn for its `j`th todo. */
  function ImportOne(notes: map<Id, Note>, e: ImportEntry, freshNote: Id, freshTodo: nat -> Id, now: int): (r: Option<Note>)
    ensures e.todos.None? && e.txt.None? ==> r.None?
    ensures r.Some? ==>
      var id := e.id.GetOr(freshNote);
      var u := e.updatedAt.GetOr(now);
      Applies(notes, id, u) &&
      r.value.id == id && r.value.state == Dirty && r.value.deletedAt == 0 &&
      r.value.version == ImportVersion(notes, id) &&
      r.value.createdAt == (if id in notes then notes[id].createdAt else now) &&
      r.value.updatedAt == Max(u, if id in notes then notes[id].updatedAt else 0) &&
      r.value.title == e.title.GetOr("") && r.value.labels.None?
    ensures r.Some? && e.todos.Some? ==> r.value.content == Todos(StampTodos(e.todos.value, freshTodo, now))
    ensures r.Some? && e.todos.None? ==> r.value.content == Text(e.txt.value) && e.txt.value != ""
    ensures (e.todos.Some? || TruthyStr(e.txt)) && Applies(notes, e.id.GetOr(freshNote), e.updatedAt.GetOr(now)) ==> r.Some?
  {
    var id := e.id.GetOr(freshNote);
    var u := e.updatedAt.GetOr(now);
    if e.todos.None? && e.txt.None? then None
    else if !Applies(notes, id, u) then None
    else
      var createdAt := if id in notes then notes[id].createdAt else now;
      var updatedAt := Max(u, if id in notes then notes[id].updatedAt else 0);
      var title := e.title.GetOr("");
      if e.todos.Some? then
        Some(Note(id, createdAt, updatedAt, ImportVersion(notes, id), Dirty, 0, title, None,
                  Todos(StampTodos(e.todos.value, freshTodo, now))))
      else if TruthyStr(e.txt) then
        Some(Note(id, createdAt, updatedAt, ImportVersion(notes, id), Dirty, 0, title, None, Text(e.txt.value)))
      else None
  }

  /** The notes the upsert loop collects. Every entry is compared with the
      table as it was before the import: nothing is written inside the loop. */
  function CollectImports(notes: map<Id, Note>, entries: seq<ImportEntry>, freshNote: nat -> Id,
                          freshTodo: (nat, nat) -> Id, now: int): (res: seq<Note>)
    ensures |res| <= |entries|
    ensures forall n :: n in res <==>
      exists i :: 0 <= i < |entries| && ImportOne(notes, entries[i], freshNote(i), (j: nat) => freshTodo(i, j), now) == Some(n)
    decreases |entries|
  {
    if |entries| == 0 then []
    else
      var k := |entries| - 1;
      var init := CollectImports(notes, entries[..k], freshNote, freshTodo, now);
      assert forall i :: 0 <= i < k ==> entries[..k][i] == entries[i];
      match ImportOne(notes, entries[k], freshNote(k), (j: nat) => freshTodo(k, j), now)
      case None => init
      case Some(n) => init + [n]
  }

  /** `bulkPut`: each collected note is stored under its id, a later one
      overwriting an earlier one with the same id. */
  function BulkPut(notes: map<Id, Note>, res: seq<Note>): (r: map<Id, Note>)
    ensures r.Keys == notes.Keys + set n | n in res :: n.id
    ensures forall k :: k in r ==> (k in notes && r[k] == notes[k]) || (r[k] in res && r[k].id == k)
    ensures forall k :: k in notes && k !in (set n | n in res :: n.id) ==> r[k] == notes[k]
  {
    notes + IndexBy(res, NoteId)
  }

  /** `importNotes`. Without a chosen file nothing happens; a file that does
      not parse only sets the dialog's error; otherwise the collected notes
      are written in one go and the dialog closes. */
  function ImportNotes(notes: map<Id, Note>, dialog: ImportDialog, parse: string -> Option<seq<ImportEntry>>,
                       freshNote: nat -> Id, freshTodo: (nat, nat) -> Id, now: int): (r: Imported)
    ensures dialog.file.None? ==> r == Imported(notes, dialog)
    ensures dialog.file.Some? && parse(dialog.file.value).None? ==>
      r == Imported(notes, dialog.(error := Some("Invalid file format")))
    ensures dialog.file.Some? && parse(dialog.file.value).Some? ==>
      r.dialog == ClosedDialog &&
      r.notes == BulkPut(notes, CollectImports(notes, parse(dialog.file.value).value, freshNote, freshTodo, now))
  {
    match dialog.file
    case None => Imported(notes, dialog)
    case Some(text) =>
      match parse(text)
      case None => Imported(notes, dialog.(error := Some("Invalid file format")))
      case Some(entries) => Imported(BulkPut(notes, CollectImports(notes, entries, freshNote, freshTodo, now)), ClosedDialog)
  }

  /** What every collected note satisfies: dirty, alive, versioned by the
      import rule, no older than the local copy, never an empty text, and
      every todo stamped. */
  predicate ImportedWell(notes: map<Id, Note>, n: Note) {
    n.state == Dirty && n.deletedAt == 0 && n.version == ImportVersion(notes, n.id) &&
    (n.id in notes ==> n.updatedAt >= notes[n.id].updatedAt && n.createdAt == notes[n.id].createdAt) &&
    (n.content.Text? ==> n.content.txt != "") &&
    (n.content.Todos? ==> forall t :: t in n.content.todos ==> t.id.Some? && t.updatedAt.Some?)
  }

  lemma CollectedWell(notes: map<Id, Note>, entries: seq<ImportEntry>, freshNote: nat -> Id,
                      freshTodo: (nat, nat) -> Id, now: int)
    ensures forall n :: n in CollectImports(notes, entries, freshNote, freshTodo, now) ==> ImportedWell(notes, n)
  {
    forall n | n in CollectImports(notes, entries, freshNote, freshTodo, now)
      ensures ImportedWell(notes, n)
    {
      var i :| 0 <= i < |entries| && ImportOne(notes, entries[i], freshNote(i), (j: nat) => freshTodo(i, j), now) == Some(n);
    }
  }

  /** Writing notes that all satisfy `ImportedWell` keeps the table's
      timestamps from going back and starts new notes at version 1. */
  lemma BulkPutWell(notes: map<Id, Note>, res: seq<Note>)
    requires forall n :: n in res ==> ImportedWell(notes, n)
    ensures var r := BulkPut(notes, res);
      (forall k :: k in r ==> (k in notes && r[k] == notes[k]) || ImportedWell(notes, r[k])) &&
      (forall k :: k in r && k !in notes ==> r[k].version == 1) &&
      (forall k :: k in notes ==> r[k].updatedAt >= notes[k].updatedAt)
  {
    var r := BulkPut(notes, res);
    forall k | k in r && k !in notes
      ensures r[k].version == 1
    {
      assert r[k] in res && r[k].id == k;
      assert ImportedWell(notes, r[k]);
    }
    forall k | k in notes
      ensures r[k].updatedAt >= notes[k].updatedAt
    {
      if r[k] != notes[k] {
        assert r[k] in res && r[k].id == k;
        assert ImportedWell(notes, r[k]);
      }
    }
  }

  /** After an import every note it wrote satisfies `ImportedWell`: a new
      note starts at version 1, a replaced one is dirty and alive, and no
      local note becomes older. */
  lemma ImportedNotesWellFormed(notes: map<Id, Note>, entries: seq<ImportEntry>, freshNote: nat -> Id,
                                freshTodo: (nat, nat) -> Id, now: int)
    ensures var r := BulkPut(notes, CollectImports(notes, entries, freshNote, freshTodo, now));
      (forall k :: k in r ==> (k in notes && r[k] == notes[k]) || ImportedWell(notes, r[k])) &&
      (forall k :: k in r && k !in notes ==> r[k].version == 1) &&
      (forall k :: k in notes ==> r[k].updatedAt >= notes[k].updatedAt)
  {
    CollectedWell(notes, entries, freshNote, freshTodo, now);
    BulkPutWell(notes, CollectImports(notes, entries, freshNote, freshTodo, now));
  }

  /** Keep import. */

  /** The body of a Keep note: text, a checklist of `(text, checked)`
      items, or neither. */
  datatype KeepBody = KeepText(text: string) | KeepList(items: seq<(string, bool)>) | NoBody

  /** A parsed Keep note; timestamps are in microseconds. */
  datatype KeepNote = KeepNote(isTrashed: bool, createdUsec: int, editedUsec: int, title: string, body: KeepBody)

  /** The length of the `/`-free tail of `s`. */
  function TailLen(s: string): (n: nat)
    ensures n <= |s|
    ensures forall j :: |s| - n <= j < |s| ==> s[j] != '/'
    ensures n < |s| ==> s[|s| - n - 1] == '/'
  {
    if |s| == 0 || s[|s| - 1] == '/' then 0 else 1 + TailLen(s[..|s| - 1])
  }

  /** Whether an archive path matches `Keep/<name>.json` at its end, with a
      non-empty name free of `/`: the `Keep/` must end at the last `/`. */
  predicate IsKeepPath(p: string) {
    |p| >= 5 && p[|p| - 5..] == ".json" &&
    var stem := p[..|p| - 5];
    var n := TailLen(stem);
    n >= 1 && |stem| >= n + 5 && stem[|stem| - n - 5..|stem| - n] == "Keep/"
  }

  /** The note a Keep entry becomes; `ids(0)` is the note's id and
      `ids(j + 1)` that of its `j`th item. `toMs` converts microseconds to
      milliseconds. */
  function KeepToNote(k: KeepNote, ids: nat -> Id, toMs: int -> int): (r: Option<Note>)
    ensures r.Some? <==> !k.isTrashed && !k.body.NoBody?
    ensures r.Some? ==>
      r.value.id == ids(0) && r.value.version == 1 && r.value.state == Dirty && r.value.deletedAt == 0 &&
      r.value.createdAt == toMs(k.createdUsec) && r.value.updatedAt == toMs(k.editedUsec) &&
      r.value.title == k.title && r.value.labels.None?
    ensures r.Some? && k.body.KeepText? ==> r.value.content == Text(k.body.text)
    ensures r.Some? && k.body.KeepList? ==>
      r.value.content.Todos? && |r.value.content.todos| == |k.body.items| &&
      forall j :: 0 <= j < |k.body.items| ==>
        r.value.content.todos[j] == Todo(k.body.items[j].1, k.body.items[j].0, Some(ids(j + 1)), Some(toMs(k.editedUsec)))
  {
    if k.isTrashed then None
    else
      var mk := (c: Content) => Note(ids(0), toMs(k.createdUsec), toMs(k.editedUsec), 1, Dirty, 0, k.title, None, c);
      match k.body
      case KeepText(text) => Some(mk(Text(text)))
      case KeepList(items) =>
        Some(mk(Todos(seq(|items|, j requires 0 <= j < |items| =>
          Todo(items[j].1, items[j].0, Some(ids(j + 1)), Some(toMs(k.editedUsec)))))))
      case NoBody => None
  }

  /** The notes of an archive: entries whose path matches and whose contents
      parse as a Keep note, skipping trashed notes. `ids(i, _)` are the ids
      drawn for entry `i`. */
  function CollectKeep(files: seq<(string, string)>, parse: string -> Option<KeepNote>,
                       ids: (nat, nat) -> Id, toMs: int -> int): (res: seq<Note>)
    ensures |res| <= |files|
    ensures forall n :: n in res <==>
      exists i :: 0 <= i < |files| && IsKeepPath(files[i].0) && parse(files[i].1).Some? &&
        KeepToNote(parse(files[i].1).value, (j: nat) => ids(i, j), toMs) == Some(n)
    ensures forall n :: n in res ==> n.version == 1 && n.state == Dirty && n.deletedAt == 0
    decreases |files|
  {
    if |files| == 0 then []
    else
      var k := |files| - 1;
      var init := CollectKeep(files[..k], parse, ids, toMs);
      assert forall i :: 0 <= i < k ==> files[..k][i] == files[i];
      var (path, contents) := files[k];
      if !IsKeepPath(path) || parse(contents).None? then init
      else
        match KeepToNote(parse(contents).value, (j: nat) => ids(k, j), toMs)
        case None => init
        case Some(n) => init + [n]
  }

  /** `keepImportNotes`. An archive that cannot be opened (`None`) sets the
      error; one with no importable note writes nothing and leaves the
      dialog open; otherwise the notes are written and the dialog closes. */
  function KeepImportNotes(notes: map<Id, Note>, dialog: ImportDialog, unzip: string -> Result<seq<(string, string)>>,
                           parse: string -> Option<KeepNote>, ids: (nat, nat) -> Id, toMs: int -> int): (r: Imported)
    ensures dialog.file.None? ==> r == Imported(notes, dialog)
    ensures dialog.file.Some? && unzip(dialog.file.value).Err? ==>
      r == Imported(notes, dialog.(error := Some(unzip(dialog.file.value).message)))
    ensures dialog.file.Some? && unzip(dialog.file.value).Ok? ==>
      var res := CollectKeep(unzip(dialog.file.value).value, parse, ids, toMs);
      (|res| == 0 ==> r == Imported(notes, dialog)) &&
      (|res| > 0 ==> r == Imported(BulkPut(notes, res), ClosedDialog))
  {
    match dialog.file
    case None => Imported(notes, dialog)
    case Some(file) =>
      match unzip(file)
      case Err(m) => Imported(notes, dialog.(error := Some(m)))
      case Ok(files) =>
        var res := CollectKeep(files, parse, ids, toMs);
        if |res| == 0 then Imported(notes, dialog) else Imported(BulkPut(notes, res), ClosedDialog)
  }

  /** A Keep archive whose matching entries are all trashed imports
      nothing. */
  lemma {:induction false} AllTrashedImportsNothing(files: seq<(string, string)>, parse: string -> Option<KeepNote>,
                                                    ids: (nat, nat) -> Id, toMs: int -> int)
    requires forall i :: 0 <= i < |files| && parse(files[i].1).Some? ==> parse(files[i].1).value.isTrashed
    ensures CollectKeep(files, parse, ids, toMs) == []
    decreases |files|
  {
    if |files| > 0 {
      var k := |files| - 1;
      assert forall i :: 0 <= i < k ==> files[..k][i] == files[i];
      AllTrashedImportsNothing(files[..k], parse, ids, toMs);
    }
  }
}
