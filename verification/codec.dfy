/** Conversion between local records and sync envelopes (`Put`), and between
    a todo list and plain text. JSON serialization and schema validation are
    abstract: a `Json` value bundles a serializer and a validating parser
    per payload shape. */
module Codec {
  import opened Common
  import opened Strings
  import opened Models

  /** The payload of a live text note. */
  datatype TextPayload = TextPayload(title: string, txt: string, labels: Option<seq<Id>>)

  /** The payload of a live todo note. */
  datatype TodoPayload = TodoPayload(title: string, todos: seq<Todo>, labels: Option<seq<Id>>)

  /** The payload of a live label. */
  datatype LabelPayload = LabelPayload(name: string, hue: Option<int>)

  /** `JSON.stringify` and `zodParseString(schema, _)` for each payload
      schema, plus the bare todo-list schema. A parser yields `None` where the
      source gets `undefined` (invalid JSON or a schema mismatch). */
  datatype Json = Json(
    textToJson: TextPayload -> string, parseText: string -> Option<TextPayload>,
    todoToJson: TodoPayload -> string, parseTodo: string -> Option<TodoPayload>,
    labelToJson: LabelPayload -> string, parseLabel: string -> Option<LabelPayload>,
    parseTodos: string -> Option<seq<Todo>>)

  /** Parsing what was serialized gives the payload back. */
  ghost predicate Faithful(j: Json) {
    (forall p :: j.parseText(j.textToJson(p)) == Some(p)) &&
    (forall p :: j.parseTodo(j.todoToJson(p)) == Some(p)) &&
    (forall p :: j.parseLabel(j.labelToJson(p)) == Some(p))
  }

  function Txts(todos: seq<Todo>): (r: seq<string>)
    ensures |r| == |todos| && forall i :: 0 <= i < |todos| ==> r[i] == todos[i].txt
  {
    Map(todos, (t: Todo) => t.txt)
  }

  /** `todosToText`: one line per item. Splitting the text at newlines
      gives the items' texts back when none of them holds a newline. */
  function TodosToText(todos: seq<Todo>): (r: string)
    ensures |todos| == 0 ==> r == ""
    ensures |todos| > 0 && (forall i :: 0 <= i < |todos| ==> '\n' !in todos[i].txt) ==>
      Split(r, '\n') == Txts(todos)
  {
    var txts := Txts(todos);
    if |todos| > 0 && (forall i :: 0 <= i < |todos| ==> '\n' !in todos[i].txt) then
      SplitJoin(txts, '\n');
      Join(txts, '\n')
    else
      Join(txts, '\n')
  }

  predicate NonEmptyStr(s: string) {
    s != ""
  }

  /** The trimmed non-blank lines of a text, in order. */
  function ContentLines(text: string): (r: seq<string>)
    ensures forall i :: 0 <= i < |r| ==> r[i] != "" && Trim(r[i]) == r[i]
  {
    var r := Filter(Map(Split(text, '\n'), Trim), NonEmptyStr);
    assert forall i :: 0 <= i < |r| ==> r[i] in Map(Split(text, '\n'), Trim);
    r
  }

  /** `textToTodos`: one unchecked item per non-blank line, trimmed, each
      with a fresh id (`freshId(i)` for the i-th) and `updated_at = now`; a
      text with no such line gives a single empty item. */
  function TextToTodos(text: string, freshId: nat -> Id, now: int): (r: seq<Todo>)
    ensures |r| >= 1
    ensures forall i :: 0 <= i < |r| ==> !r[i].done && r[i].id == Some(freshId(i)) && r[i].updatedAt == Some(now)
    ensures |ContentLines(text)| == 0 ==> |r| == 1 && r[0].txt == ""
    ensures |ContentLines(text)| > 0 ==> Txts(r) == ContentLines(text)
  {
    var lines := ContentLines(text);
    if |lines| == 0 then [Todo(false, "", Some(freshId(0)), Some(now))]
    else FreshTodos(lines, freshId, now)
  }

  /** One unchecked item per given line, the i-th with id `freshId(i)`. */
  function FreshTodos(lines: seq<string>, freshId: nat -> Id, now: int): (r: seq<Todo>)
    ensures |r| == |lines|
    ensures forall i :: 0 <= i < |r| ==> !r[i].done && r[i].id == Some(freshId(i)) && r[i].updatedAt == Some(now)
    ensures Txts(r) == lines
  {
    var r := seq(|lines|, i requires 0 <= i < |lines| => Todo(false, lines[i], Some(freshId(i)), Some(now)));
    assert forall i :: 0 <= i < |lines| ==> Txts(r)[i] == lines[i];
    r
  }

  /** A list of non-empty, trimmed single-line items survives the round trip
      through text: the item texts come back in order. */
  lemma TodosTextRoundTrip(todos: seq<Todo>, freshId: nat -> Id, now: int)
    requires |todos| >= 1
    requires forall i :: 0 <= i < |todos| ==>
      todos[i].txt != "" && '\n' !in todos[i].txt && Trim(todos[i].txt) == todos[i].txt
    ensures Txts(TextToTodos(TodosToText(todos), freshId, now)) == Txts(todos)
  {
    var txts := Txts(todos);
    SplitJoin(txts, '\n');
    var trimmed := Map(txts, Trim);
    assert trimmed == txts;
    FilterAll(txts, NonEmptyStr);
  }

  /** `noteToPut`: a tombstone travels without payload and keeps its
      deletion time; a live note travels with its serialized payload. */
  function NoteToPut(json: Json, n: Note): (p: Put)
    ensures p.id == n.id && p.createdAt == n.createdAt && p.updatedAt == n.updatedAt && p.version == n.version
    ensures p.kind == PutTypeOf(n.Type())
    ensures n.deletedAt != 0 ==> p.txt.None? && p.deletedAt == Some(n.deletedAt)
    ensures n.deletedAt == 0 ==> p.txt.Some? && p.deletedAt.None?
  {
    var txt :=
      if n.deletedAt != 0 then None
      else match n.content
        case Todos(todos) => Some(json.todoToJson(TodoPayload(n.title, todos, n.labels)))
        case Text(txt) => Some(json.textToJson(TextPayload(n.title, txt, n.labels)));
    Put(n.id, PutTypeOf(n.Type()), n.createdAt, n.updatedAt, n.version,
        if n.deletedAt != 0 then Some(n.deletedAt) else None, txt)
  }

  /** `labelToPut`, with the same tombstone/live split. */
  function LabelToPut(json: Json, l: Label): (p: Put)
    ensures p.id == l.id && p.createdAt == l.createdAt && p.updatedAt == l.updatedAt && p.version == l.version
    ensures p.kind == LabelPut
    ensures l.deletedAt != 0 ==> p.txt.None? && p.deletedAt == Some(l.deletedAt)
    ensures l.deletedAt == 0 ==> p.txt.Some? && p.deletedAt.None?
  {
    Put(l.id, LabelPut, l.createdAt, l.updatedAt, l.version,
        if l.deletedAt != 0 then Some(l.deletedAt) else None,
        if l.deletedAt != 0 then None else Some(json.labelToJson(LabelPayload(l.name, l.hue))))
  }

  /** `putToNote`: throws for a label envelope. A tombstone gets empty
      content; a payload that does not validate is kept as the text of a text
      note, or as the single unchecked item of a todo note (no item when it is
      empty); `freshId` and `now` supply that item's id and time. */
  function PutToNote(json: Json, put: Put, freshId: Id, now: int): (r: Result<Note>)
    ensures r.Err? <==> put.kind == LabelPut
    ensures r.Ok? ==>
      var n := r.value;
      n.id == put.id && n.createdAt == put.createdAt && n.updatedAt == put.updatedAt &&
      n.version == put.version && n.state == Synced && n.deletedAt == put.deletedAt.GetOr(0) &&
      PutTypeOf(n.Type()) == put.kind
    ensures r.Ok? && put.txt.None? ==>
      r.value.title == "" && r.value.labels.None? && r.value.content in {Text(""), Todos([])}
    ensures r.Ok? && put.kind == NotePut && put.txt.Some? && json.parseText(put.txt.value).None? ==>
      r.value.title == "" && r.value.content == Text(put.txt.value) && r.value.labels.None?
    ensures r.Ok? && put.kind == TodoPut && put.txt.Some? && json.parseTodo(put.txt.value).None? ==>
      r.value.title == "" && r.value.labels.None? &&
      r.value.content == Todos(if put.txt.value == "" then [] else [Todo(false, put.txt.value, Some(freshId), Some(now))])
  {
    var mk := (title: string, labels: Option<seq<Id>>, content: Content) =>
      Note(put.id, put.createdAt, put.updatedAt, put.version, Synced, put.deletedAt.GetOr(0), title, labels, content);
    match (put.kind, put.txt)
    case (LabelPut, _) => Err("put is not a note")
    case (NotePut, None) => Ok(mk("", None, Text("")))
    case (TodoPut, None) => Ok(mk("", None, Todos([])))
    case (NotePut, Some(txt)) =>
      (match json.parseText(txt)
       case Some(p) => Ok(mk(p.title, p.labels, Text(p.txt)))
       case None => Ok(mk("", None, Text(txt))))
    case (TodoPut, Some(txt)) =>
      (match json.parseTodo(txt)
       case Some(p) => Ok(mk(p.title, p.labels, Todos(p.todos)))
       case None =>
         Ok(mk("", None, Todos(if txt != "" then [Todo(false, txt, Some(freshId), Some(now))] else []))))
  }

  /** `putToLabel`: throws for a note envelope; a tombstone gets an empty
      name; a payload that does not validate becomes the name. */
  function PutToLabel(json: Json, put: Put): (r: Result<Label>)
    ensures r.Err? <==> put.kind != LabelPut
    ensures r.Ok? ==>
      var l := r.value;
      l.id == put.id && l.createdAt == put.createdAt && l.updatedAt == put.updatedAt &&
      l.version == put.version && l.state == Synced && l.deletedAt == put.deletedAt.GetOr(0)
    ensures r.Ok? && put.txt.None? ==> r.value.name == "" && r.value.hue.None?
    ensures r.Ok? && put.txt.Some? && json.parseLabel(put.txt.value).None? ==>
      r.value.name == put.txt.value && r.value.hue.None?
  {
    if put.kind != LabelPut then Err("Put is not a label")
    else
      var payload :=
        match put.txt
        case None => LabelPayload("", None)
        case Some(txt) => json.parseLabel(txt).GetOr(LabelPayload(txt, None));
      Ok(Label(put.id, put.createdAt, put.updatedAt, put.version, Synced, put.deletedAt.GetOr(0),
               payload.name, payload.hue))
  }

  /** A live note survives the envelope round trip unchanged except that it
      is now marked synced. */
  lemma NoteRoundTrip(json: Json, n: Note, freshId: Id, now: int)
    requires Faithful(json)
    requires n.deletedAt == 0
    ensures PutToNote(json, NoteToPut(json, n), freshId, now) == Ok(n.(state := Synced))
  {
    match n.content
    case Text(txt) =>
      assert json.parseText(json.textToJson(TextPayload(n.title, txt, n.labels))) == Some(TextPayload(n.title, txt, n.labels));
    case Todos(todos) =>
      assert json.parseTodo(json.todoToJson(TodoPayload(n.title, todos, n.labels))) == Some(TodoPayload(n.title, todos, n.labels));
  }

  /** A tombstone comes back as a synced tombstone of the same type with its
      content, title and labels emptied. */
  lemma TombstoneRoundTrip(json: Json, n: Note, freshId: Id, now: int)
    requires n.deletedAt != 0
    ensures PutToNote(json, NoteToPut(json, n), freshId, now)
            == Ok(n.(state := Synced, title := "", labels := None,
                     content := if n.content.Text? then Text("") else Todos([])))
  {
  }

  /** A live label survives the envelope round trip, marked synced. */
  lemma LabelRoundTrip(json: Json, l: Label)
    requires Faithful(json)
    requires l.deletedAt == 0
    ensures PutToLabel(json, LabelToPut(json, l)) == Ok(l.(state := Synced))
  {
    assert json.parseLabel(json.labelToJson(LabelPayload(l.name, l.hue))) == Some(LabelPayload(l.name, l.hue));
  }

  /** `notesIsEmpty`: a live note with no title and no content. */
  predicate NotesIsEmpty(n: Note) {
    n.deletedAt == 0 && n.title == "" &&
    match n.content
    case Text(txt) => txt == ""
    case Todos(todos) => |todos| == 0 || (|todos| == 1 && todos[0].txt == "")
  }

  /** Emptiness in terms of the note's text: a live untitled note is empty
      exactly when its text, or the text of its at most one item, is empty.
      Tombstones are never empty. */
  lemma NotesIsEmptyMeansNoText(n: Note)
    ensures n.deletedAt != 0 ==> !NotesIsEmpty(n)
    ensures n.deletedAt == 0 && n.title == "" ==>
      (NotesIsEmpty(n) <==>
        match n.content
        case Text(txt) => txt == ""
        case Todos(todos) => |todos| <= 1 && TodosToText(todos) == "")
  {
  }

  /** The todo list `textToTodos` makes from blank text is empty in the
      sense of `notesIsEmpty`. */
  lemma BlankTextGivesEmptyNote(n: Note, text: string, freshId: nat -> Id, now: int)
    requires |ContentLines(text)| == 0
    requires n.deletedAt == 0 && n.title == ""
    requires n.content == Todos(TextToTodos(text, freshId, now))
    ensures NotesIsEmpty(n)
  {
  }
}
