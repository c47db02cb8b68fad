/** Resolution of sync conflicts: for each record the server reports as
    conflicting, either a merged record (text notes by a three-way line
    merge, todo notes item by item, labels newest-wins) or a conflict left
    to the user. */
module NoteMerge {
  import opened Common
  import opened Strings
  import opened Models
  import opened Merge
  import opened Misc

  /** `threeWayMergeArrays(base, local, server)` on id lists (a library). */
  type IdMerge = (seq<Id>, seq<Id>, seq<Id>) -> seq<Id>

  /** The names `mergeTodoConflict` ignores when comparing todo lists. */
  const IgnoredTodoProps: seq<string> := ["id", "updated_at"]

  /** A todo item as a JSON object: `done`, `txt`, then the optional keys. */
  function TodoVal(t: Todo): JVal {
    Obj([("done", Bool(t.done)), ("txt", Str(t.txt))]
        + (if t.id.Some? then [("id", Str(t.id.value))] else [])
        + (if t.updatedAt.Some? then [("updated_at", Num(t.updatedAt.value))] else []))
  }

  function TodosVal(todos: seq<Todo>): JVal {
    ArrayVal(Map(todos, TodoVal))
  }

  /** `todoHasIdAndUpdatedAt` for every item. */
  predicate HaveIds(todos: seq<Todo>) {
    forall i :: 0 <= i < |todos| ==> todos[i].id.Some? && todos[i].updatedAt.Some?
  }

  lemma TodoDeepEquals(d: Todo, s: Todo, k: string)
    requires d.id.Some? && d.updatedAt.Some? && s.id.Some? && s.updatedAt.Some?
    requires k !in IgnoredTodoProps
    ensures DeepEquals(TodoVal(d), TodoVal(s), IgnoredTodoProps, Some(k)) <==> StripTodo(d) == StripTodo(s)
  {
    var a, b := TodoVal(d), TodoVal(s);
    assert a.fields[0].0 == "done" && a.fields[1].0 == "txt" && a.fields[2].0 == "id" && a.fields[3].0 == "updated_at";
    assert "done" != "txt" by { assert "done"[0] != "txt"[0]; }
    assert "done" !in IgnoredTodoProps by { assert "done"[0] != "id"[0] && "done"[0] != "updated_at"[0]; }
    assert "txt" !in IgnoredTodoProps by { assert "txt"[0] != "id"[0] && "txt"[0] != "updated_at"[0]; }
    assert Get(b, "done") == Bool(s.done);
    assert Lookup(b.fields[1..], "txt") == Str(s.txt);
    assert Get(b, "txt") == Str(s.txt);
    FieldsEqualAll(a, 0, b, IgnoredTodoProps);
    assert DeepEquals(a.fields[0].1, Get(b, "done"), IgnoredTodoProps, Some("done")) <==> d.done == s.done;
    assert DeepEquals(a.fields[1].1, Get(b, "txt"), IgnoredTodoProps, Some("txt")) <==> d.txt == s.txt;
  }

  lemma IndexKeyNotIgnored(i: nat)
    ensures NatToString(i) !in IgnoredTodoProps
  {
    var k := NatToString(i);
    assert IsDigit(k[0]);
    assert !IsDigit("id"[0]) && !IsDigit("updated_at"[0]);
  }

  lemma ArrayValGet(items: seq<JVal>, i: nat)
    requires i < |items|
    ensures Get(ArrayVal(items), NatToString(i)) == items[i]
  {
    var fs := ArrayVal(items).fields;
    assert DistinctKeys(fs) by {
      forall p, q | 0 <= p < q < |fs| ensures fs[p].0 != fs[q].0 {
        assert DecimalValue(NatToString(p)) != DecimalValue(NatToString(q));
      }
    }
    LookupDistinct(fs, i);
  }

  lemma ItemsDeepEquals(ds: seq<Todo>, ss: seq<Todo>)
    requires HaveIds(ds) && HaveIds(ss) && |ds| == |ss|
    ensures var a, b := TodosVal(ds), TodosVal(ss);
      forall j :: 0 <= j < |a.fields| ==>
        (DeepEquals(a.fields[j].1, Get(b, a.fields[j].0), IgnoredTodoProps, Some(a.fields[j].0))
         <==> StripTodo(ds[j]) == StripTodo(ss[j]))
  {
    var a, b := TodosVal(ds), TodosVal(ss);
    forall j | 0 <= j < |a.fields|
      ensures DeepEquals(a.fields[j].1, Get(b, a.fields[j].0), IgnoredTodoProps, Some(a.fields[j].0))
              <==> StripTodo(ds[j]) == StripTodo(ss[j])
    {
      assert a.fields[j] == (NatToString(j), TodoVal(ds[j]));
      ArrayValGet(Map(ss, TodoVal), j);
      IndexKeyNotIgnored(j);
      TodoDeepEquals(ds[j], ss[j], NatToString(j));
    }
  }

  lemma MapPointwise<A, B>(x: seq<A>, y: seq<A>, f: A -> B)
    requires |x| == |y|
    ensures Map(x, f) == Map(y, f) <==> forall j :: 0 <= j < |x| ==> f(x[j]) == f(y[j])
  {
    if forall j :: 0 <= j < |x| ==> f(x[j]) == f(y[j]) {
      assert forall j :: 0 <= j < |x| ==> Map(x, f)[j] == Map(y, f)[j];
    }
  }

  /** With every item carrying an id and a time, `deepEquals` ignoring
      `id` and `updated_at` holds exactly when the lists agree item by item
      on `done` and `txt`. */
  lemma TodosDeepEquals(ds: seq<Todo>, ss: seq<Todo>)
    requires HaveIds(ds) && HaveIds(ss)
    ensures DeepEquals(TodosVal(ds), TodosVal(ss), IgnoredTodoProps, None)
            <==> Map(ds, StripTodo) == Map(ss, StripTodo)
  {
    var a, b := TodosVal(ds), TodosVal(ss);
    assert |a.fields| == |ds| && |b.fields| == |ss|;
    if |ds| == |ss| {
      assert DeepEquals(a, b, IgnoredTodoProps, None) == FieldsEqual(a, 0, b, IgnoredTodoProps);
      FieldsEqualAll(a, 0, b, IgnoredTodoProps);
      ItemsDeepEquals(ds, ss);
      MapPointwise(ds, ss, StripTodo);
    } else {
      assert |Map(ds, StripTodo)| != |Map(ss, StripTodo)|;
    }
  }

  /** The first item with the given id. */
  function FindTodo(todos: seq<Todo>, id: Id): (r: Option<Todo>)
    ensures r.Some? ==> r.value in todos && r.value.id == Some(id)
    ensures r.None? ==> forall i :: 0 <= i < |todos| ==> todos[i].id != Some(id)
  {
    if |todos| == 0 then None else if todos[0].id == Some(id) then Some(todos[0]) else FindTodo(todos[1..], id)
  }

  function TodoIds(todos: seq<Todo>): seq<Id>
    requires HaveIds(todos)
  {
    seq(|todos|, i requires 0 <= i < |todos| && HaveIds(todos) => todos[i].id.value)
  }

  /** The item chosen for one merged id: the side that has it, or the side
      with the strictly newer `updated_at` (server on ties); an id on
      neither side throws. */
  function PickTodo(id: Id, dirty: seq<Todo>, server: seq<Todo>): (r: Result<Todo>)
    requires HaveIds(dirty) && HaveIds(server)
    ensures r.Err? <==> FindTodo(dirty, id).None? && FindTodo(server, id).None?
    ensures r.Ok? ==> r.value.id == Some(id) && (r.value in dirty || r.value in server)
    ensures FindTodo(dirty, id).Some? && FindTodo(server, id).Some? ==>
      r.Ok? && var d, s := FindTodo(dirty, id).value, FindTodo(server, id).value;
      (d.updatedAt.value > s.updatedAt.value ==> r.value == d) &&
      (d.updatedAt.value <= s.updatedAt.value ==> r.value == s)
  {
    match (FindTodo(dirty, id), FindTodo(server, id))
    case (None, Some(s)) => Ok(s)
    case (Some(d), None) => Ok(d)
    case (Some(d), Some(s)) => Ok(if d.updatedAt.value > s.updatedAt.value then d else s)
    case (None, None) => Err("threeWayMergeArrays failed")
  }

  /** `mergedIds.map(...)`: the chosen item for each merged id, in order. */
  function PickTodos(ids: seq<Id>, dirty: seq<Todo>, server: seq<Todo>): (r: Result<seq<Todo>>)
    requires HaveIds(dirty) && HaveIds(server)
    ensures r.Ok? <==> forall i :: 0 <= i < |ids| ==> PickTodo(ids[i], dirty, server).Ok?
    ensures r.Ok? ==> |r.value| == |ids| && forall i :: 0 <= i < |ids| ==> r.value[i] == PickTodo(ids[i], dirty, server).value
  {
    if |ids| == 0 then Ok([])
    else
      var first := PickTodo(ids[0], dirty, server);
      var rest := PickTodos(ids[1..], dirty, server);
      assert forall i :: 1 <= i < |ids| ==> ids[i] == ids[1..][i - 1];
      if first.Err? then Err(first.message)
      else if rest.Err? then Err(rest.message)
      else Ok([first.value] + rest.value)
  }

  /** The record both merges produce: identity from the base, a fresh
      time, the next version, dirty, and the title of the strictly newer
      side (server on ties). Labels are not carried over. */
  function MergedNote(base: Note, dirty: Note, server: Note, now: int, content: Content): (n: Note)
    ensures n.id == base.id && n.createdAt == base.createdAt && n.updatedAt == now && n.deletedAt == 0
    ensures n.version == Max(dirty.version, server.version) + 1 && n.state == Dirty
    ensures n.version > dirty.version && n.version > server.version
    ensures dirty.updatedAt > server.updatedAt ==> n.title == dirty.title
    ensures dirty.updatedAt <= server.updatedAt ==> n.title == server.title
    ensures n.content == content && n.labels.None?
  {
    Note(base.id, base.createdAt, now, Max(dirty.version, server.version) + 1, Dirty, 0,
         if dirty.updatedAt > server.updatedAt then dirty.title else server.title, None, content)
  }

  /** `mergeTodoConflict`: `Ok(None)` where the source returns `null`, `Err`
      where it throws. */
  function MergeTodoConflict(mergeIds: IdMerge, base: Note, dirty: Note, server: Note, now: int): (r: Result<Option<Note>>)
    ensures !dirty.content.Todos? || !server.content.Todos? ==> r == Ok(None)
    ensures dirty.content.Todos? && server.content.Todos? && !(HaveIds(dirty.content.todos) && HaveIds(server.content.todos))
            ==> r == Ok(None)
    ensures r.Ok? && r.value.Some? ==>
      r.value.value == MergedNote(base, dirty, server, now, r.value.value.content) && r.value.value.content.Todos?
    ensures dirty.content.Todos? && server.content.Todos? && HaveIds(dirty.content.todos) && HaveIds(server.content.todos)
            && Map(dirty.content.todos, StripTodo) == Map(server.content.todos, StripTodo)
            ==> r == Ok(Some(MergedNote(base, dirty, server, now, dirty.content)))
    ensures dirty.content.Todos? && server.content.Todos? && HaveIds(dirty.content.todos) && HaveIds(server.content.todos)
            && Map(dirty.content.todos, StripTodo) != Map(server.content.todos, StripTodo)
            && base.content.Todos? && HaveIds(base.content.todos) && r.Ok?
            ==> var ids := mergeIds(TodoIds(base.content.todos), TodoIds(dirty.content.todos), TodoIds(server.content.todos));
                r.value.Some? && |r.value.value.content.todos| == |ids| &&
                forall i :: 0 <= i < |ids| ==>
                  PickTodo(ids[i], dirty.content.todos, server.content.todos).Ok? &&
                  r.value.value.content.todos[i] == PickTodo(ids[i], dirty.content.todos, server.content.todos).value
  {
    if !dirty.content.Todos? || !server.content.Todos? then Ok(None)
    else
      var dt, st := dirty.content.todos, server.content.todos;
      if !HaveIds(dt) || !HaveIds(st) then Ok(None)
      else
        TodosDeepEquals(dt, st);
        if DeepEquals(TodosVal(dt), TodosVal(st), IgnoredTodoProps, None) then
          Ok(Some(MergedNote(base, dirty, server, now, Todos(dt))))
        else if !base.content.Todos? || !HaveIds(base.content.todos) then Ok(None)
        else
          var ids := mergeIds(TodoIds(base.content.todos), TodoIds(dt), TodoIds(st));
          match PickTodos(ids, dt, st)
          case Err(msg) => Err(msg)
          case Ok(todos) => Ok(Some(MergedNote(base, dirty, server, now, Todos(todos))))
  }

  /** `mergeNoteConflict`: equal texts need no base; otherwise the three-way
      merge of the base text, or `None` when the base is not a text note. */
  function MergeNoteConflict(diff3: Diff3, base: Note, dirty: Note, server: Note, now: int): (r: Option<Note>)
    ensures !dirty.content.Text? || !server.content.Text? ==> r.None?
    ensures dirty.content.Text? && server.content.Text? && dirty.content.txt == server.content.txt ==>
      r == Some(MergedNote(base, dirty, server, now, dirty.content))
    ensures dirty.content.Text? && server.content.Text? && dirty.content.txt != server.content.txt ==>
      (r.Some? <==> base.content.Text?)
    ensures r.Some? ==> r.value == MergedNote(base, dirty, server, now, r.value.content) && r.value.content.Text?
  {
    if !dirty.content.Text? || !server.content.Text? then None
    else if dirty.content.txt == server.content.txt then Some(MergedNote(base, dirty, server, now, dirty.content))
    else if !base.content.Text? then None
    else
      var txt := ThreeWayMerge(diff3, Some(base.content.txt), dirty.content.txt, server.content.txt);
      Some(MergedNote(base, dirty, server, now, Text(txt)))
  }

  /** When only one side edited the text since the base, the merged note
      carries the other side's edit. */
  lemma MergeNoteOneSided(diff3: Diff3, base: Note, dirty: Note, server: Note, now: int)
    requires OneSidedChangesWin(diff3)
    requires base.content.Text? && dirty.content.Text? && server.content.Text?
    ensures dirty.content.txt == base.content.txt ==>
      MergeNoteConflict(diff3, base, dirty, server, now) == Some(MergedNote(base, dirty, server, now, server.content))
    ensures server.content.txt == base.content.txt ==>
      MergeNoteConflict(diff3, base, dirty, server, now) == Some(MergedNote(base, dirty, server, now, dirty.content))
  {
    MergeOneSided(diff3, base.content.txt, dirty.content.txt, server.content.txt);
  }

  /** `mergeConflict`: dispatches on the local note's type. */
  function MergeConflict(diff3: Diff3, mergeIds: IdMerge, base: Note, dirty: Note, server: Note, now: int): (r: Result<Option<Note>>)
    ensures dirty.content.Todos? ==> r == MergeTodoConflict(mergeIds, base, dirty, server, now)
    ensures dirty.content.Text? ==> r == Ok(MergeNoteConflict(diff3, base, dirty, server, now))
  {
    match dirty.content
    case Todos(_) => MergeTodoConflict(mergeIds, base, dirty, server, now)
    case Text(_) => Ok(MergeNoteConflict(diff3, base, dirty, server, now))
  }

  /** The conditions under which a server conflict is never merged. */
  predicate Unmergeable(baseVersions: seq<Note>, dirtyNotes: seq<Note>, sc: Note) {
    var base := FindNote(baseVersions, sc.id);
    var dirty := FindNote(dirtyNotes, sc.id);
    base.None? || dirty.None? || dirty.value.Type() != sc.Type() || dirty.value.deletedAt != 0 || sc.deletedAt != 0
  }

  /** What happens to one server conflict: `Ok(Some(m))` merged as `m`,
      `Ok(None)` left as a conflict, `Err` the todo merge threw. */
  function Outcome(diff3: Diff3, mergeIds: IdMerge, baseVersions: seq<Note>, dirtyNotes: seq<Note>, sc: Note, now: int)
    : (r: Result<Option<Note>>)
    ensures Unmergeable(baseVersions, dirtyNotes, sc) ==> r == Ok(None)
    ensures r.Ok? && r.value.Some? ==>
      r.value.value.id == sc.id && r.value.value.state == Dirty && r.value.value.deletedAt == 0 &&
      r.value.value.version > sc.version
  {
    if Unmergeable(baseVersions, dirtyNotes, sc) then Ok(None)
    else MergeConflict(diff3, mergeIds, FindNote(baseVersions, sc.id).value, FindNote(dirtyNotes, sc.id).value, sc, now)
  }

  datatype Merged = Merged(merged: seq<Note>, conflicts: seq<Note>)

  /** The loop of `mergeConflicts` over any per-conflict outcome: merged
      records and remaining conflicts in order, the first error aborting. */
  function SortOutcomes(scs: seq<Note>, outcome: Note -> Result<Option<Note>>): (r: Result<Merged>)
    ensures r.Ok? ==> |r.value.merged| + |r.value.conflicts| == |scs|
    ensures r.Ok? ==> r.value.conflicts == Filter(scs, (sc: Note) => outcome(sc) == Ok(None))
    ensures r.Ok? ==> forall m :: m in r.value.merged ==> exists sc :: sc in scs && outcome(sc) == Ok(Some(m))
    ensures r.Ok? ==> forall sc :: sc in scs ==>
      sc in r.value.conflicts || exists m :: m in r.value.merged && outcome(sc) == Ok(Some(m))
    ensures r.Err? ==> exists sc :: sc in scs && outcome(sc).Err?
    decreases |scs|
  {
    if |scs| == 0 then Ok(Merged([], []))
    else
      var sc := scs[0];
      var rest := SortOutcomes(scs[1..], outcome);
      var o := outcome(sc);
      assert scs == [sc] + scs[1..];
      if o.Err? then Err(o.message)
      else if rest.Err? then Err(rest.message)
      else if o.value.Some? then Ok(Merged([o.value.value] + rest.value.merged, rest.value.conflicts))
      else
        FilterMember(scs[1..], (sc: Note) => outcome(sc) == Ok(None), sc);
        Ok(Merged(rest.value.merged, [sc] + rest.value.conflicts))
  }

  /** `mergeConflicts`: splits the server conflicts into merged records and
      remaining conflicts, in order. */
  function MergeConflicts(diff3: Diff3, mergeIds: IdMerge, baseVersions: seq<Note>, dirtyNotes: seq<Note>,
                          serverConflicts: seq<Note>, now: int): (r: Result<Merged>)
    ensures r.Ok? ==> |r.value.merged| + |r.value.conflicts| == |serverConflicts|
    ensures r.Ok? ==> r.value.conflicts
                      == Filter(serverConflicts, (sc: Note) => Outcome(diff3, mergeIds, baseVersions, dirtyNotes, sc, now) == Ok(None))
    ensures r.Ok? ==> forall sc :: sc in serverConflicts && Unmergeable(baseVersions, dirtyNotes, sc) ==> sc in r.value.conflicts
    ensures r.Ok? ==> forall m :: m in r.value.merged ==>
      m.state == Dirty && m.deletedAt == 0 && exists sc :: sc in serverConflicts && sc.id == m.id && m.version > sc.version
    ensures r.Ok? ==> forall sc :: sc in serverConflicts ==>
      sc in r.value.conflicts || exists m :: m in r.value.merged && m.id == sc.id
    ensures r.Err? ==> exists sc :: sc in serverConflicts && Outcome(diff3, mergeIds, baseVersions, dirtyNotes, sc, now).Err?
  {
    var outcome := (sc: Note) => Outcome(diff3, mergeIds, baseVersions, dirtyNotes, sc, now);
    var r := SortOutcomes(serverConflicts, outcome);
    FilterExt(serverConflicts, (sc: Note) => outcome(sc) == Ok(None),
              (sc: Note) => Outcome(diff3, mergeIds, baseVersions, dirtyNotes, sc, now) == Ok(None));
    r
  }

  /** `mergeLabelConflicts`: each server label against the local label with
      its id; throws when there is none. */
  function MergeLabelConflicts(dirtyLabels: seq<Label>, serverConflicts: seq<Label>): (r: Result<seq<Label>>)
    ensures r.Err? <==> exists i :: 0 <= i < |serverConflicts| && FindLabel(dirtyLabels, serverConflicts[i].id).None?
    ensures r.Ok? ==> (|r.value| == |serverConflicts| &&
      forall i :: 0 <= i < |serverConflicts| ==>
        var sl, l := serverConflicts[i], r.value[i];
        var cl := FindLabel(dirtyLabels, sl.id).value;
        l.id == sl.id && l.version == Max(cl.version, sl.version) + 1 && l.state == Dirty &&
        l.updatedAt == Max(cl.updatedAt, sl.updatedAt) &&
        (cl.updatedAt > sl.updatedAt ==>
          l.name == cl.name && l.hue == cl.hue && l.deletedAt == cl.deletedAt && l.createdAt == cl.createdAt) &&
        (cl.updatedAt <= sl.updatedAt ==>
          l.name == sl.name && l.hue == sl.hue && l.deletedAt == sl.deletedAt && l.createdAt == sl.createdAt))
  {
    if |serverConflicts| == 0 then Ok([])
    else
      var sl := serverConflicts[0];
      var rest := MergeLabelConflicts(dirtyLabels, serverConflicts[1..]);
      assert forall i :: 1 <= i < |serverConflicts| ==> serverConflicts[i] == serverConflicts[1..][i - 1];
      match FindLabel(dirtyLabels, sl.id)
      case None => Err("Label not found")
      case Some(cl) =>
        var l := if cl.updatedAt > sl.updatedAt then cl else sl;
        var m := l.(version := Max(cl.version, sl.version) + 1, state := Dirty, updatedAt := Max(cl.updatedAt, sl.updatedAt));
        if rest.Err? then
          var i :| 0 <= i < |serverConflicts[1..]| && FindLabel(dirtyLabels, serverConflicts[1..][i].id).None?;
          assert serverConflicts[i + 1] == serverConflicts[1..][i];
          rest
        else Ok([m] + rest.value)
  }
}
