/** The client's records: notes (text or todo list), labels, the `Put`
    envelope exchanged with the sync layer, and the open-note editor slot. */
module Models {
  import opened Common

  datatype NoteType = TextType | TodoType

  datatype SyncState = Dirty | Synced

  /** A todo item. `id` and `updated_at` are optional: items written before
      they existed, or parsed by a schema that strips them, lack them. */
  datatype Todo = Todo(done: bool, txt: string, id: Option<Id>, updatedAt: Option<int>)

  /** The content of a note: a text note carries `txt`, a todo note carries
      `todos`, never both (the source's `XOR<TextNote, TodoNote>`). */
  datatype Content = Text(txt: string) | Todos(todos: seq<Todo>) {
    function Type(): NoteType {
      if Text? then TextType else TodoType
    }
  }

  /** A note. `deletedAt != 0` marks a tombstone; `labels` may be absent. */
  datatype Note = Note(id: Id, createdAt: int, updatedAt: int, version: int, state: SyncState,
                       deletedAt: int, title: string, labels: Option<seq<Id>>, content: Content)
  {
    function Type(): NoteType {
      content.Type()
    }
  }

  /** The first note with the given id (`notes.find(n => n.id === id)`). */
  function FindNote(notes: seq<Note>, id: Id): (r: Option<Note>)
    ensures r.Some? ==> r.value in notes && r.value.id == id
    ensures r.None? ==> forall i :: 0 <= i < |notes| ==> notes[i].id != id
  {
    if |notes| == 0 then None else if notes[0].id == id then Some(notes[0]) else FindNote(notes[1..], id)
  }

  /** A label; `hue` is `null` for the default colour. */
  datatype Label = Label(id: Id, createdAt: int, updatedAt: int, version: int, state: SyncState,
                         deletedAt: int, name: string, hue: Option<int>)

  /** The first label with the given id. */
  function FindLabel(labels: seq<Label>, id: Id): (r: Option<Label>)
    ensures r.Some? ==> r.value in labels && r.value.id == id
    ensures r.None? ==> forall i :: 0 <= i < |labels| ==> labels[i].id != id
  {
    if |labels| == 0 then None else if labels[0].id == id then Some(labels[0]) else FindLabel(labels[1..], id)
  }

  datatype PutType = NotePut | TodoPut | LabelPut

  /** The sync envelope of one record: `txt` is the serialized payload, or
      `null` for a tombstone; `deleted_at` is `null` for a live record. */
  datatype Put = Put(id: Id, kind: PutType, createdAt: int, updatedAt: int, version: int,
                     deletedAt: Option<int>, txt: Option<string>)

  function PutTypeOf(t: NoteType): PutType {
    match t
    case TextType => NotePut
    case TodoType => TodoPut
  }

  /** The sort keys offered for the notes grid. */
  datatype SortProp = CreatedAt | UpdatedAt

  /** `noteSortOptions`: the label shown for each sort key. */
  function SortLabel(p: SortProp): (r: string)
    ensures r == "Created" <==> p == CreatedAt
    ensures r == "Modified" <==> p == UpdatedAt
  {
    match p
    case CreatedAt => assert "Created"[0] == 'C'; "Created"
    case UpdatedAt => assert "Modified"[0] == 'M'; "Modified"
  }

  /** An open-note object before validation; `None` is an absent key. */
  datatype RawOpenNote = RawOpenNote(kind: Option<string>, id: Option<Id>, txt: Option<string>,
                                     todos: Option<seq<Todo>>)

  /** The validated open note: the text form, the todo form, or the legacy
      form written before notes had a type. */
  datatype AnyOpenNote = TextOpen(id: Id, txt: string) | TodoOpen(id: Id, todos: seq<Todo>)
                       | LegacyOpen(id: Id, txt: string)

  /** The todo schema keeps only `done` and `txt`. */
  function StripTodo(t: Todo): Todo {
    Todo(t.done, t.txt, None, None)
  }

  /** `anyOpenNoteSchema.safeParse`: the discriminated union of the text and
      todo forms, then the legacy form. */
  function ParseAnyOpenNote(raw: RawOpenNote): (r: Option<AnyOpenNote>)
    ensures r.Some? <==>
      raw.id.Some? &&
      ((raw.kind == Some("note") && raw.txt.Some? && raw.todos.None?) ||
       (raw.kind == Some("todo") && raw.todos.Some? && raw.txt.None?) ||
       (raw.kind.None? && raw.txt.Some?))
    ensures r.Some? ==> raw.id == Some(r.value.id)
    ensures r.Some? && (r.value.TextOpen? || r.value.LegacyOpen?) ==> raw.txt == Some(r.value.txt)
    ensures r.Some? && r.value.TodoOpen? ==> raw.todos.Some? && |r.value.todos| == |raw.todos.value|
    ensures r.Some? && r.value.TodoOpen? && raw.todos.Some? && |r.value.todos| == |raw.todos.value| ==>
      forall i :: 0 <= i < |r.value.todos| ==>
        r.value.todos[i].done == raw.todos.value[i].done && r.value.todos[i].txt == raw.todos.value[i].txt
  {
    match raw
    case RawOpenNote(Some(k), Some(id), Some(txt), None) =>
      if k == "note" then Some(TextOpen(id, txt)) else None
    case RawOpenNote(Some(k), Some(id), None, Some(todos)) =>
      if k == "todo" then Some(TodoOpen(id, Map(todos, StripTodo))) else None
    case RawOpenNote(None, Some(id), Some(txt), _) => Some(LegacyOpen(id, txt))
    case _ => None
  }

  /** The object a validated open note denotes, to compare with the input. */
  function OpenNoteAsRaw(n: AnyOpenNote): RawOpenNote {
    match n
    case TextOpen(id, txt) => RawOpenNote(Some("note"), Some(id), Some(txt), None)
    case TodoOpen(id, todos) => RawOpenNote(Some("todo"), Some(id), None, Some(todos))
    case LegacyOpen(id, txt) => RawOpenNote(None, Some(id), Some(txt), None)
  }

  /** Each of the three accepted forms, with todos carrying only `done` and
      `txt`, validates to itself. */
  lemma OpenNoteParseIdentity(raw: RawOpenNote)
    requires raw.id.Some?
    requires (raw.kind == Some("note") && raw.txt.Some? && raw.todos.None?)
          || (raw.kind == Some("todo") && raw.todos.Some? && raw.txt.None?
              && forall i :: 0 <= i < |raw.todos.value| ==> raw.todos.value[i] == StripTodo(raw.todos.value[i]))
          || (raw.kind.None? && raw.txt.Some? && raw.todos.None?)
    ensures ParseAnyOpenNote(raw).Some? && OpenNoteAsRaw(ParseAnyOpenNote(raw).value) == raw
  {
    if raw.kind == Some("todo") {
      assert Map(raw.todos.value, StripTodo) == raw.todos.value;
    }
  }
}
