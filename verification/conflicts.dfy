/** Resolving the conflict queue that a sync round leaves behind: the user
    keeps either the local note or the server's version of the head entry. */
module Conflicts {
  import opened Common
  import opened Models
  import opened Codec
  import opened Store
  import opened Sync

  /** `pickLocalNote`: the local copy of the head entry is kept, marked
      dirty, with a version above both sides so that the next upload wins. */
  function PickLocalNote(c: Client): (r: Client)
    ensures |c.conflicts| == 0 || c.conflicts[0].id !in c.db.notes ==> r == c
    ensures |c.conflicts| > 0 && c.conflicts[0].id in c.db.notes ==>
      var put := c.conflicts[0];
      var local := c.db.notes[put.id];
      put.id in r.db.notes &&
      r.db.notes[put.id] == local.(version := Max(local.version, put.version) + 1, state := Dirty) &&
      r == c.(db := c.db.(notes := c.db.notes[put.id := r.db.notes[put.id]]), conflicts := c.conflicts[1..])
  {
    if |c.conflicts| == 0 then c
    else
      var put := c.conflicts[0];
      if put.id !in c.db.notes then c
      else
        var local := c.db.notes[put.id];
        var picked := local.(version := Max(local.version, put.version) + 1, state := Dirty);
        c.(db := c.db.(notes := c.db.notes[put.id := picked]), conflicts := c.conflicts[1..])
  }

  /** The note `pickServerNote` stores for a queued entry. The stored record
      carries no title and no labels; the title is read back as `""`. */
  function ServerNote(json: Json, put: Put): (n: Note)
    ensures n.id == put.id && n.createdAt == put.createdAt && n.updatedAt == put.updatedAt
    ensures n.version == put.version && n.state == Synced && n.deletedAt == put.deletedAt.GetOr(0)
    ensures n.title == "" && n.labels.None?
    ensures put.kind == NotePut ==> n.content == Text(put.txt.GetOr(""))
    ensures put.kind != NotePut ==>
      n.content.Todos? &&
      (!TruthyStr(put.txt) ==> n.content.todos == []) &&
      (TruthyStr(put.txt) ==> n.content.todos == json.parseTodos(put.txt.value).GetOr([]))
  {
    var content :=
      if put.kind == NotePut then Text(put.txt.GetOr(""))
      else Todos(if TruthyStr(put.txt) then json.parseTodos(put.txt.value).GetOr([]) else []);
    Note(put.id, put.createdAt, put.updatedAt, put.version, Synced, put.deletedAt.GetOr(0), "", None, content)
  }

  /** `pickServerNote`: the server's version of the head entry replaces the
      local note (or is inserted), and the queue advances. */
  function PickServerNote(c: Client, json: Json): (r: Client)
    ensures |c.conflicts| == 0 ==> r == c
    ensures |c.conflicts| > 0 ==>
      var put := c.conflicts[0];
      put.id in r.db.notes && r.db.notes[put.id] == ServerNote(json, put) &&
      r == c.(db := c.db.(notes := c.db.notes[put.id := r.db.notes[put.id]]), conflicts := c.conflicts[1..])
  {
    if |c.conflicts| == 0 then c
    else
      var put := c.conflicts[0];
      c.(db := c.db.(notes := c.db.notes[put.id := ServerNote(json, put)]), conflicts := c.conflicts[1..])
  }

  /** Taking the server side of a queued text note stores that note back as
      synced; a queued todo note comes back with an empty list, because the
      queue holds no payload for it. */
  lemma ServerPickOfQueuedNote(c: Client, json: Json, n: Note, rest: seq<Put>)
    requires c.conflicts == [QueuedPut(n)] + rest
    ensures var r := PickServerNote(c, json);
      r.conflicts == rest &&
      (n.content.Text? ==> r.db.notes[n.id] == n.(state := Synced, title := "", labels := None)) &&
      (n.content.Todos? ==> r.db.notes[n.id] == n.(state := Synced, title := "", labels := None, content := Todos([])))
  {
    assert c.conflicts[0] == QueuedPut(n);
    assert c.conflicts[1..] == rest;
  }
}
