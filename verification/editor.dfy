/** The open-note editor: opening, editing, storing, closing and deleting
    the note in the editor slot, and the todo-list edit actions. */
module Editor {
  import opened Common
  import opened Strings
  import opened Models
  import opened Misc
  import opened Codec
  import opened NoteMerge
  import opened Store

  /** `Array.prototype.splice(start, deleteCount, ...items)`: the array it
      leaves behind. */
  function Splice<T>(s: seq<T>, start: int, deleteCount: int, items: seq<T>): (r: seq<T>)
    ensures var i := RelIndex(start, |s|);
      var d := if deleteCount < 0 then 0 else Min(deleteCount, |s| - i);
      |r| == |s| - d + |items| && r[..i] == s[..i] && r[i..i + |items|] == items && r[i + |items|..] == s[i + d..]
  {
    var i := RelIndex(start, |s|);
    var d := if deleteCount < 0 then 0 else Min(deleteCount, |s| - i);
    s[..i] + items + s[i + d..]
  }

  /** `moveTodo`'s two splices (`Splice(s, i, 1, [])` then
      `Splice(rest, target, 0, [s[i]])`): take the item at `source` out and put it
      back at `target`; nothing moves when `source` names no item. */
  function MoveItem<T>(s: seq<T>, source: int, target: int): (r: seq<T>)
    ensures |r| == |s| && multiset(r) == multiset(s)
    ensures 0 <= source < |s| && 0 <= target < |s| ==> r[target] == s[source]
  {
    var i := RelIndex(source, |s|);
    if i == |s| then s
    else
      var rest := s[..i] + s[i + 1..];
      var j := RelIndex(target, |rest|);
      MoveItemPerm(s, i, j);
      rest[..j] + [s[i]] + rest[j..]
  }

  lemma MoveItemPerm<T>(s: seq<T>, i: nat, j: nat)
    requires i < |s| && j < |s|
    ensures var rest := s[..i] + s[i + 1..];
      multiset(rest[..j] + [s[i]] + rest[j..]) == multiset(s)
  {
    var rest := s[..i] + s[i + 1..];
    assert s == s[..i] + [s[i]] + s[i + 1..];
    assert rest == rest[..j] + rest[j..];
    assert multiset(rest[..j] + [s[i]] + rest[j..]) == multiset(rest[..j]) + multiset{s[i]} + multiset(rest[j..]);
    assert multiset(rest) == multiset(rest[..j]) + multiset(rest[j..]);
    assert multiset(rest) == multiset(s[..i]) + multiset(s[i + 1..]);
    assert multiset(s) == multiset(s[..i]) + multiset{s[i]} + multiset(s[i + 1..]);
    assert multiset(rest[..j] + [s[i]] + rest[j..]) == multiset(rest) + multiset{s[i]};
  }

  /** The editor content of a todo note, if one is open. */
  predicate TodoOpenIn(o: Option<OpenNote>) {
    o.Some? && o.value.content.Todos?
  }

  /** `todoChecked`: sets `done` of item `index` and refreshes its time;
      no change unless a todo note is open and the item exists. */
  function TodoChecked(o: Option<OpenNote>, index: int, checked: bool, now: int): (r: Option<OpenNote>)
    ensures !(TodoOpenIn(o) && 0 <= index < |o.value.content.todos|) ==> r == o
    ensures TodoOpenIn(o) && 0 <= index < |o.value.content.todos| ==>
      r == Some(o.value.(content := Todos(o.value.content.todos[index := o.value.content.todos[index].(done := checked, updatedAt := Some(now))]),
                         updatedAt := now))
  {
    if TodoOpenIn(o) && 0 <= index < |o.value.content.todos| then
      var todos := o.value.content.todos;
      Some(o.value.(content := Todos(todos[index := todos[index].(done := checked, updatedAt := Some(now))]), updatedAt := now))
    else o
  }

  /** `todoChanged`: sets `txt` of item `index` and refreshes its time. */
  function TodoChanged(o: Option<OpenNote>, index: int, txt: string, now: int): (r: Option<OpenNote>)
    ensures !(TodoOpenIn(o) && 0 <= index < |o.value.content.todos|) ==> r == o
    ensures TodoOpenIn(o) && 0 <= index < |o.value.content.todos| ==> (r.Some? && r.value.content.Todos? &&
      var before, after := o.value.content.todos, r.value.content.todos;
      |after| == |before| && after[index].txt == txt && after[index].done == before[index].done &&
      after[index].id == before[index].id && after[index].updatedAt == Some(now) &&
      (forall j :: 0 <= j < |before| && j != index ==> after[j] == before[j]) &&
      r.value.updatedAt == now && r.value.id == o.value.id && r.value.title == o.value.title)
  {
    if TodoOpenIn(o) && 0 <= index < |o.value.content.todos| then
      var todos := o.value.content.todos;
      Some(o.value.(content := Todos(todos[index := todos[index].(txt := txt, updatedAt := Some(now))]), updatedAt := now))
    else o
  }

  /** `insertTodo(bellow)`: a fresh unchecked empty item after `bellow`. */
  function InsertTodo(o: Option<OpenNote>, bellow: int, freshId: Id, now: int): (r: Option<OpenNote>)
    ensures !TodoOpenIn(o) ==> r == o
    ensures TodoOpenIn(o) ==> (r.Some? && r.value.content.Todos? && r.value.updatedAt == now &&
      r.value.id == o.value.id && r.value.title == o.value.title &&
      |r.value.content.todos| == |o.value.content.todos| + 1 &&
      multiset(r.value.content.todos) == multiset(o.value.content.todos) + multiset{Todo(false, "", Some(freshId), Some(now))})
  {
    if TodoOpenIn(o) then
      var todos := o.value.content.todos;
      var item := Todo(false, "", Some(freshId), Some(now));
      var r := Splice(todos, bellow + 1, 0, [item]);
      var i := RelIndex(bellow + 1, |todos|);
      assert r == todos[..i] + [item] + todos[i..];
      assert todos == todos[..i] + todos[i..];
      Some(o.value.(content := Todos(r), updatedAt := now))
    else o
  }

  /** Within the list, the new item lands directly below `bellow`. */
  lemma InsertTodoPosition(o: Option<OpenNote>, bellow: int, freshId: Id, now: int)
    requires TodoOpenIn(o) && -1 <= bellow < |o.value.content.todos|
    ensures var before, after := o.value.content.todos, InsertTodo(o, bellow, freshId, now).value.content.todos;
      after == before[..bellow + 1] + [Todo(false, "", Some(freshId), Some(now))] + before[bellow + 1..]
  {
  }

  /** `deleteTodo(index)`: removes the item at `index` (counted from the end
      when negative). */
  function DeleteTodo(o: Option<OpenNote>, index: int, now: int): (r: Option<OpenNote>)
    ensures !TodoOpenIn(o) ==> r == o
    ensures TodoOpenIn(o) && 0 <= index < |o.value.content.todos| ==> (r.Some? && r.value.content.Todos? &&
      r.value.content.todos == o.value.content.todos[..index] + o.value.content.todos[index + 1..] &&
      r.value.updatedAt == now && r.value.id == o.value.id)
    ensures TodoOpenIn(o) && index >= |o.value.content.todos| ==>
      r == Some(o.value.(updatedAt := now))
    ensures TodoOpenIn(o) ==> r.Some? && r.value.content.Todos? && r.value == o.value.(content := r.value.content, updatedAt := now)
    ensures TodoOpenIn(o) && -|o.value.content.todos| <= index < 0 ==>
      var todos, k := o.value.content.todos, |o.value.content.todos| + index;
      r.value.content.todos == todos[..k] + todos[k + 1..]
    ensures TodoOpenIn(o) && index < -|o.value.content.todos| && |o.value.content.todos| > 0 ==>
      r.value.content.todos == o.value.content.todos[1..]
    ensures TodoOpenIn(o) && |o.value.content.todos| == 0 ==> r == Some(o.value.(updatedAt := now))
  {
    if TodoOpenIn(o) then
      var todos := o.value.content.todos;
      var r := Splice(todos, index, 1, []);
      assert index >= |todos| ==> r == todos[..|todos|] == todos;
      Some(o.value.(content := Todos(r), updatedAt := now))
    else o
  }

  /** `moveTodo(source, target)`. */
  function MoveTodo(o: Option<OpenNote>, source: int, target: int, now: int): (r: Option<OpenNote>)
    ensures !TodoOpenIn(o) ==> r == o
    ensures TodoOpenIn(o) ==> (r.Some? && r.value.content.Todos? && r.value.updatedAt == now &&
      r.value.id == o.value.id && r.value.title == o.value.title &&
      multiset(r.value.content.todos) == multiset(o.value.content.todos))
  {
    if TodoOpenIn(o) then
      Some(o.value.(content := Todos(MoveItem(o.value.content.todos, source, target)), updatedAt := now))
    else o
  }

  /** `openNoteTitleChanged`. */
  function TitleChanged(o: Option<OpenNote>, title: string, now: int): (r: Option<OpenNote>)
    ensures o.None? ==> r.None?
    ensures o.Some? ==> r == Some(o.value.(title := title, updatedAt := now))
  {
    if o.Some? then Some(o.value.(title := title, updatedAt := now)) else o
  }

  /** `openNoteTxtChanged`. On an open todo note the assigned `txt` is never
      read again, so only the edit time changes. */
  function TxtChanged(o: Option<OpenNote>, txt: string, now: int): (r: Option<OpenNote>)
    ensures o.None? ==> r.None?
    ensures o.Some? && o.value.content.Text? ==> r == Some(o.value.(content := Text(txt), updatedAt := now))
    ensures TodoOpenIn(o) ==> r == Some(o.value.(updatedAt := now))
  {
    match o
    case None => None
    case Some(n) => if n.content.Text? then Some(n.(content := Text(txt), updatedAt := now)) else Some(n.(updatedAt := now))
  }

  /** `openNoteTypeToggled`: a text note becomes a todo list of its non-blank
      lines; a todo list becomes the text of its items, one per line. */
  function TypeToggled(o: Option<OpenNote>, freshId: nat -> Id, now: int): (r: Option<OpenNote>)
    ensures o.None? ==> r.None?
    ensures o.Some? ==> (r.Some? && r.value.id == o.value.id && r.value.title == o.value.title &&
      r.value.updatedAt == now && r.value.content.Type() != o.value.content.Type())
    ensures o.Some? && o.value.content.Todos? ==> r.value.content == Text(TodosToText(o.value.content.todos))
    ensures o.Some? && o.value.content.Text? ==>
      var lines := ContentLines(o.value.content.txt);
      Txts(r.value.content.todos) == (if |lines| == 0 then [""] else lines)
  {
    match o
    case None => None
    case Some(n) =>
      match n.content
      case Text(txt) =>
        ToggledLines(txt, freshId, now);
        Some(n.(content := Todos(TextToTodos(txt, freshId, now)), updatedAt := now))
      case Todos(todos) => Some(n.(content := Text(TodosToText(todos)), updatedAt := now))
  }

  lemma ToggledLines(txt: string, freshId: nat -> Id, now: int)
    ensures var lines := ContentLines(txt);
      Txts(TextToTodos(txt, freshId, now)) == (if |lines| == 0 then [""] else lines)
  {
    var lines := ContentLines(txt);
    if |lines| == 0 {
      assert Txts(TextToTodos(txt, freshId, now))[0] == "";
    }
  }

  /** Toggling a todo list to text and back keeps its items' texts, as long
      as each is non-blank and free of surrounding blanks and newlines. */
  lemma TypeToggleTwice(o: Option<OpenNote>, freshId: nat -> Id, now: int, later: int)
    requires TodoOpenIn(o) && |o.value.content.todos| >= 1
    requires forall i :: 0 <= i < |o.value.content.todos| ==>
      var t := o.value.content.todos[i].txt; '\n' !in t && Strings.Trim(t) == t && t != ""
    ensures var r := TypeToggled(TypeToggled(o, freshId, now), freshId, later);
      r.Some? && r.value.content.Todos? && Txts(r.value.content.todos) == Txts(o.value.content.todos)
  {
    TodosTextRoundTrip(o.value.content.todos, freshId, later);
  }

  /** `openNoteHistoryHandler`: restores a content from the undo history. */
  function HistoryRestored(o: Option<OpenNote>, item: Option<Content>, now: int): (r: Option<OpenNote>)
    ensures o.None? || item.None? ==> r == o
    ensures o.Some? && item.Some? ==> r == Some(o.value.(content := item.value, updatedAt := now))
  {
    if o.Some? && item.Some? then Some(o.value.(content := item.value, updatedAt := now)) else o
  }

  /** The second step of `noteOpened`: items lacking an id or time get a
      fresh id (`freshId(i)` for item `i`) and the current time. */
  function FillTodoIds(todos: seq<Todo>, freshId: nat -> Id, now: int): (r: seq<Todo>)
    ensures |r| == |todos| && HaveIds(r)
    ensures forall i :: 0 <= i < |r| ==> StripTodo(r[i]) == StripTodo(todos[i])
    ensures forall i :: 0 <= i < |r| && todos[i].id.Some? ==> r[i].id == todos[i].id
    ensures forall i :: 0 <= i < |r| && todos[i].updatedAt.Some? ==> r[i].updatedAt == todos[i].updatedAt
  {
    seq(|todos|, i requires 0 <= i < |todos| =>
      todos[i].(id := if todos[i].id.Some? then todos[i].id else Some(freshId(i)),
                updatedAt := if todos[i].updatedAt.Some? then todos[i].updatedAt else Some(now)))
  }

  /** `noteOpened`: a live stored note is put into the editor; a todo list
      with an item lacking an id or time has them filled in. */
  function NoteOpened(c: Client, id: Id, freshId: nat -> Id, now: int): (r: Client)
    ensures id !in c.db.notes || c.db.notes[id].deletedAt != 0 ==> r == c
    ensures id in c.db.notes && c.db.notes[id].deletedAt == 0 ==>
      var n := c.db.notes[id];
      r == c.(openNote := r.openNote) && r.openNote.Some? &&
      r.openNote.value.id == id && r.openNote.value.title == n.title && r.openNote.value.updatedAt == n.updatedAt &&
      r.openNote.value.content.Type() == n.Type() &&
      (n.content.Text? ==> r.openNote.value.content == n.content) &&
      (n.content.Todos? && HaveIds(n.content.todos) ==> r.openNote.value.content == n.content) &&
      (n.content.Todos? ==> HaveIds(r.openNote.value.content.todos) &&
                            Map(r.openNote.value.content.todos, StripTodo) == Map(n.content.todos, StripTodo))
  {
    if id !in c.db.notes || c.db.notes[id].deletedAt != 0 then c
    else
      var n := c.db.notes[id];
      var content :=
        match n.content
        case Text(_) => n.content
        case Todos(todos) =>
          if HaveIds(todos) then n.content
          else
            var filled := FillTodoIds(todos, freshId, now);
            assert forall i :: 0 <= i < |todos| ==> Map(filled, StripTodo)[i] == Map(todos, StripTodo)[i];
            Todos(filled);
      c.(openNote := Some(OpenNote(id, n.title, content, n.updatedAt)))
  }

  /** `addNote`: a new empty text note, labelled with the active label if
      there is one, stored and opened. Adding under an id already stored
      fails and changes nothing. */
  function AddNote(c: Client, id: Id, now: int, activeLabel: Option<Id>): (r: Client)
    ensures id in c.db.notes ==> r == c
    ensures id !in c.db.notes ==>
      id in r.db.notes && r.db.notes == c.db.notes[id := r.db.notes[id]] && r.db.baseVersions == c.db.baseVersions && r.db.labels == c.db.labels &&
      var n := r.db.notes[id];
      n.id == id && n.version == 1 && n.state == Dirty && n.createdAt == now && n.updatedAt == now &&
      n.deletedAt == 0 && n.title == "" && n.content == Text("") &&
      n.labels == (if TruthyStr(activeLabel) then Some([activeLabel.value]) else None) &&
      r.openNote == Some(OpenNote(id, "", Text(""), now)) && NotesIsEmpty(n)
  {
    if id in c.db.notes then c
    else
      var n := Note(id, now, now, 1, Dirty, 0, "", if TruthyStr(activeLabel) then Some([activeLabel.value]) else None, Text(""));
      c.(db := c.db.(notes := c.db.notes[id := n]), openNote := Some(OpenNote(id, "", Text(""), now)))
  }

  /** The version a locally changed note gets: a dirty note keeps its
      version, a synced one moves to the next. */
  function NextLocalVersion(n: Note): (v: int)
    ensures n.state == Dirty ==> v == n.version
    ensures n.state == Synced ==> v == n.version + 1
  {
    if n.state == Dirty then n.version else n.version + 1
  }

  /** The comparison `storeOpenNote` makes between the stored note and the
      editor; todo lists are compared with `deepEquals`. */
  predicate EditorDiffers(n: Note, o: OpenNote) {
    n.title != o.title || n.Type() != o.content.Type() ||
    (n.content.Text? && o.content.Text? && n.content.txt != o.content.txt) ||
    (n.content.Todos? && o.content.Todos? && !DeepEquals(TodosVal(n.content.todos), TodosVal(o.content.todos), [], None))
  }

  /** `storeOpenNote`: writes the editor into the stored note when they
      differ, marking it dirty under the version rule. */
  function StoreOpenNote(c: Client): (r: Client)
    ensures c.openNote.None? || c.openNote.value.id !in c.db.notes ==> r == c
    ensures r == c.(db := c.db.(notes := r.db.notes))
    ensures r.db.notes.Keys == c.db.notes.Keys
    ensures forall k :: k in c.db.notes && (c.openNote.None? || k != c.openNote.value.id) ==> r.db.notes[k] == c.db.notes[k]
    ensures c.openNote.Some? && c.openNote.value.id in c.db.notes ==>
      var o, n, m := c.openNote.value, c.db.notes[c.openNote.value.id], r.db.notes[c.openNote.value.id];
      (m != n <==> n.title != o.title || n.content != o.content) &&
      (m != n ==> m == n.(title := o.title, content := o.content, updatedAt := o.updatedAt, state := Dirty,
                          version := NextLocalVersion(n)))
  {
    if c.openNote.None? || c.openNote.value.id !in c.db.notes then c
    else
      var o := c.openNote.value;
      var n := c.db.notes[o.id];
      EditorDiffersExactly(n, o);
      if EditorDiffers(n, o) then
        var m := n.(title := o.title, content := o.content, updatedAt := o.updatedAt, state := Dirty,
                    version := NextLocalVersion(n));
        c.(db := c.db.(notes := c.db.notes[o.id := m]))
      else c
  }

  /** `deleteOpenNote`: a note never synced (dirty at version 1) is removed;
      any other becomes a dirty tombstone under the version rule, a text
      note losing its text. The editor closes unless the note is missing. */
  function DeleteOpenNote(c: Client, now: int): (r: Client)
    requires now != 0
    ensures c.openNote.None? || c.openNote.value.id !in c.db.notes ==> r == c
    ensures c.openNote.Some? && c.openNote.value.id in c.db.notes ==>
      var id, n := c.openNote.value.id, c.db.notes[c.openNote.value.id];
      r.openNote.None? && r.db.baseVersions == c.db.baseVersions && r.db.labels == c.db.labels &&
      r == c.(db := r.db, openNote := None) &&
      (n.version == 1 && n.state == Dirty ==> r.db.notes == c.db.notes - {id}) &&
      (!(n.version == 1 && n.state == Dirty) ==>
        id in r.db.notes && r.db.notes == c.db.notes[id := r.db.notes[id]] &&
        var m := r.db.notes[id];
        m.deletedAt == now && m.state == Dirty && m.version == NextLocalVersion(n) &&
        m.content == (if n.content.Text? then Text("") else n.content) &&
        m == n.(deletedAt := m.deletedAt, state := m.state, version := m.version, content := m.content))
  {
    if c.openNote.None? || c.openNote.value.id !in c.db.notes then c
    else
      var id := c.openNote.value.id;
      var n := c.db.notes[id];
      var notes :=
        if n.version == 1 && n.state == Dirty then c.db.notes - {id}
        else c.db.notes[id := n.(deletedAt := now, state := Dirty, version := NextLocalVersion(n),
                                 content := if n.content.Text? then Text("") else n.content)];
      c.(db := c.db.(notes := notes), openNote := None)
  }

  /** The emptiness test of `noteClosed`. */
  predicate OpenNoteEmpty(o: OpenNote) {
    o.title == "" &&
    match o.content
    case Todos(todos) => |todos| == 0 || (|todos| == 1 && todos[0].txt == "")
    case Text(txt) => txt == ""
  }

  /** `noteClosed`: an empty editor deletes its note; otherwise the editor
      is stored and closed. */
  function NoteClosed(c: Client, now: int): (r: Client)
    requires now != 0
    ensures c.openNote.None? ==> r == c
    ensures c.openNote.Some? && OpenNoteEmpty(c.openNote.value) ==> r == DeleteOpenNote(c, now)
    ensures c.openNote.Some? && !OpenNoteEmpty(c.openNote.value) ==> r == StoreOpenNote(c).(openNote := None)
  {
    if c.openNote.None? then c
    else if OpenNoteEmpty(c.openNote.value) then DeleteOpenNote(c, now)
    else StoreOpenNote(c).(openNote := None)
  }

  /** An editor is empty exactly when the live note it would be stored as
      is empty in the sense the sync uses to hold notes back. */
  lemma OpenNoteEmptyAgrees(c: Client)
    requires c.openNote.Some? && c.openNote.value.id in c.db.notes
    requires c.db.notes[c.openNote.value.id].deletedAt == 0
    ensures var o := c.openNote.value;
      OpenNoteEmpty(o) <==> NotesIsEmpty(c.db.notes[o.id].(title := o.title, content := o.content))
  {
  }

  /** Closing a non-empty editor leaves the stored note holding exactly the
      editor's title and content. */
  lemma NoteClosedStores(c: Client, now: int)
    requires now != 0
    requires c.openNote.Some? && c.openNote.value.id in c.db.notes && !OpenNoteEmpty(c.openNote.value)
    ensures var o, r := c.openNote.value, NoteClosed(c, now);
      r.openNote.None? && o.id in r.db.notes &&
      r.db.notes[o.id].title == o.title && r.db.notes[o.id].content == o.content
  {
  }

  lemma StringsDiffer(a: string, b: string)
    requires |a| > 0 && |b| > 0 && a[0] != b[0]
    ensures a != b
  {
  }

  /** Field access on the JSON form of a todo item. */
  lemma TodoValGet(t: Todo)
    ensures Get(TodoVal(t), "done") == Bool(t.done)
    ensures Get(TodoVal(t), "txt") == Str(t.txt)
    ensures Get(TodoVal(t), "id") == (if t.id.Some? then Str(t.id.value) else Undefined)
    ensures Get(TodoVal(t), "updated_at") == (if t.updatedAt.Some? then Num(t.updatedAt.value) else Undefined)
  {
    StringsDiffer("done", "txt");
    StringsDiffer("done", "id");
    StringsDiffer("done", "updated_at");
    StringsDiffer("txt", "id");
    StringsDiffer("txt", "updated_at");
    assert "id" != "updated_at" by { assert "id"[0] != "updated_at"[0]; }
    var fs := TodoVal(t).fields;
    assert fs[0] == ("done", Bool(t.done)) && fs[1] == ("txt", Str(t.txt));
    assert Lookup(fs[1..], "txt") == Str(t.txt);
    if t.id.Some? {
      assert fs[2] == ("id", Str(t.id.value));
      assert Lookup(fs[2..], "id") == Str(t.id.value);
      assert Lookup(fs[1..], "id") == Str(t.id.value);
    }
    if t.updatedAt.Some? {
      var u := if t.id.Some? then 3 else 2;
      assert fs[u] == ("updated_at", Num(t.updatedAt.value));
      assert Lookup(fs[u..], "updated_at") == Num(t.updatedAt.value);
      assert Lookup(fs[2..], "updated_at") == Num(t.updatedAt.value);
      assert Lookup(fs[1..], "updated_at") == Num(t.updatedAt.value);
    } else {
      assert Lookup(fs[2..], "updated_at") == Undefined;
      assert Lookup(fs[1..], "updated_at") == Undefined;
    }
    if t.id.None? {
      assert Lookup(fs[2..], "id") == Undefined;
      assert Lookup(fs[1..], "id") == Undefined;
    }
  }

  /** With nothing ignored, two todo items are deep-equal exactly when they
      are equal. */
  lemma TodoDeepEqualsExact(d: Todo, s: Todo, k: string)
    ensures DeepEquals(TodoVal(d), TodoVal(s), [], Some(k)) <==> d == s
  {
    var a, b := TodoVal(d), TodoVal(s);
    TodoValGet(d);
    TodoValGet(s);
    if |a.fields| == |b.fields| {
      assert DeepEquals(a, b, [], Some(k)) == FieldsEqual(a, 0, b, []);
      FieldsEqualAll(a, 0, b, []);
      assert a.fields[0].0 == "done" && a.fields[1].0 == "txt";
      if DeepEquals(a, b, [], Some(k)) {
        assert DeepEquals(a.fields[0].1, Get(b, "done"), [], Some("done"));
        assert DeepEquals(a.fields[1].1, Get(b, "txt"), [], Some("txt"));
        if d.id.Some? {
          assert a.fields[2].0 == "id";
          assert DeepEquals(a.fields[2].1, Get(b, "id"), [], Some("id"));
        }
        if d.updatedAt.Some? {
          var u := if d.id.Some? then 3 else 2;
          assert a.fields[u].0 == "updated_at";
          assert DeepEquals(a.fields[u].1, Get(b, "updated_at"), [], Some("updated_at"));
        }
        assert d.id.None? && d.updatedAt.None? ==> |b.fields| == 2;
        assert d.id.Some? != d.updatedAt.Some? ==> |b.fields| == 3;
      }
      if d == s {
        forall j | 0 <= j < |a.fields|
          ensures DeepEquals(a.fields[j].1, Get(b, a.fields[j].0), [], Some(a.fields[j].0))
        {
          assert j >= 2 && d.id.Some? && (j == 2) ==> a.fields[j] == ("id", Str(d.id.value));
        }
      }
    }
  }

  /** With nothing ignored, two todo lists are deep-equal exactly when they
      are equal. */
  lemma TodosDeepEqualsExact(ds: seq<Todo>, ss: seq<Todo>)
    ensures DeepEquals(TodosVal(ds), TodosVal(ss), [], None) <==> ds == ss
  {
    var a, b := TodosVal(ds), TodosVal(ss);
    if |ds| == |ss| {
      assert DeepEquals(a, b, [], None) == FieldsEqual(a, 0, b, []);
      FieldsEqualAll(a, 0, b, []);
      forall j | 0 <= j < |a.fields|
        ensures DeepEquals(a.fields[j].1, Get(b, a.fields[j].0), [], Some(a.fields[j].0)) <==> ds[j] == ss[j]
      {
        assert a.fields[j] == (NatToString(j), TodoVal(ds[j]));
        ArrayValGet(Map(ss, TodoVal), j);
        TodoDeepEqualsExact(ds[j], ss[j], NatToString(j));
      }
    } else {
      assert |a.fields| != |b.fields|;
    }
  }

  /** `storeOpenNote`'s comparison detects exactly a change of title or
      content. */
  lemma EditorDiffersExactly(n: Note, o: OpenNote)
    ensures EditorDiffers(n, o) <==> n.title != o.title || n.content != o.content
  {
    if n.content.Todos? && o.content.Todos? {
      TodosDeepEqualsExact(n.content.todos, o.content.todos);
    }
  }
}
