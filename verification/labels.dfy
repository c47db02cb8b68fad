/** Label actions on the local store: the in-memory label cache, creation,
    editing, and deletion with its cascade over the notes that carry the
    label. */
module Labels {
  import opened Common
  import opened Models
  import opened Store

  /** The labels cache: each emitted label under its own id. */
  function LabelsCache(labels: seq<Label>): (cache: map<Id, Label>)
    ensures cache.Keys == set l | l in labels :: l.id
    ensures forall k :: k in cache ==> cache[k].id == k && cache[k] in labels
  {
    IndexBy(labels, LabelId)
  }

  /** Built from a listing of the whole label table, the cache is that
      table. */
  lemma CacheIsTable(db: Db, labels: seq<Label>)
    requires KeyedBy(db.labels, LabelId)
    requires Lists(db.labels, LabelId, l => true, labels)
    ensures LabelsCache(labels) == db.labels
  {
    var cache := LabelsCache(labels);
    ListsIndex(db.labels, LabelId, l => true, labels);
    assert cache.Keys == db.labels.Keys;
  }

  /** `createLabel`: a new never-synced label with the default colour. Adding
      under an id that exists fails and writes nothing. */
  function CreateLabel(db: Db, id: Id, name: string, now: int): (r: Result<Db>)
    ensures id in db.labels <==> r.Err?
    ensures r.Ok? ==>
      id in r.value.labels &&
      r.value.labels[id] == Label(id, now, now, 1, Dirty, 0, name, None) &&
      r.value == db.(labels := db.labels[id := r.value.labels[id]])
  {
    if id in db.labels then Err("Key already exists in the object store")
    else Ok(db.(labels := db.labels[id := Label(id, now, now, 1, Dirty, 0, name, None)]))
  }

  /** `updateLabel`: on a live label, sets the fields that are given (`hue`
      may be given as `null`), marks it dirty and refreshes `updated_at`; the
      version is left alone. A missing or deleted label is not touched. */
  function UpdateLabel(db: Db, id: Id, name: Option<string>, hue: Option<Option<int>>, now: int): (r: Db)
    ensures !(id in db.labels && db.labels[id].deletedAt == 0) ==> r == db
    ensures id in db.labels && db.labels[id].deletedAt == 0 ==>
      var l := db.labels[id];
      id in r.labels && r == db.(labels := db.labels[id := r.labels[id]]) &&
      r.labels[id].name == name.GetOr(l.name) && r.labels[id].hue == hue.GetOr(l.hue) &&
      r.labels[id].updatedAt == now && r.labels[id].state == Dirty &&
      r.labels[id].version == l.version && r.labels[id].id == l.id &&
      r.labels[id].createdAt == l.createdAt && r.labels[id].deletedAt == 0
  {
    if id in db.labels && db.labels[id].deletedAt == 0 then
      var l := db.labels[id];
      var l1 := if name.Some? then l.(name := name.value) else l;
      var l2 := if hue.Some? then l1.(hue := hue.value) else l1;
      db.(labels := db.labels[id := l2.(updatedAt := now, state := Dirty)])
    else db
  }

  /** `note.labels?.includes(id) ?? false`. */
  predicate HasLabel(n: Note, id: Id) {
    n.labels.Some? && id in n.labels.value
  }

  /** The edit the cascade makes to one note: the label is dropped, the note
      becomes dirty (one version up if it was synced) and is touched. */
  function Untag(n: Note, id: Id, now: int): Note {
    n.(labels := Some(Filter(n.labels.GetOr([]), (x: Id) => x != id)),
       state := Dirty,
       version := if n.state == Synced then n.version + 1 else n.version,
       updatedAt := now)
  }

  /** The cascade over the note table: live notes carrying the label are
      untagged, every other note is left as it is. */
  function Cascade(notes: map<Id, Note>, id: Id, now: int): (r: map<Id, Note>)
    ensures r.Keys == notes.Keys
    ensures forall k :: k in notes && !(notes[k].deletedAt == 0 && HasLabel(notes[k], id)) ==> r[k] == notes[k]
    ensures forall k :: k in notes && notes[k].deletedAt == 0 && HasLabel(notes[k], id) ==> r[k] == Untag(notes[k], id, now)
  {
    map k | k in notes :: if notes[k].deletedAt == 0 && HasLabel(notes[k], id) then Untag(notes[k], id, now) else notes[k]
  }

  /** Whether `deleteLabel` removes the label record outright: it was never
      synced. */
  predicate NeverSynced(l: Label) {
    l.state == Dirty && l.version == 1
  }

  /** `deleteLabel`. */
  function DeleteLabel(db: Db, id: Id, now: int): (r: Db)
    ensures id !in db.labels || db.labels[id].deletedAt > 0 ==> r == db
    ensures id in db.labels && db.labels[id].deletedAt <= 0 && NeverSynced(db.labels[id]) ==>
      r == db.(labels := db.labels - {id})
    ensures id in db.labels && db.labels[id].deletedAt <= 0 && !NeverSynced(db.labels[id]) ==>
      var l := db.labels[id];
      id in r.labels && r.labels == db.labels[id := r.labels[id]] &&
      r.labels[id] == l.(deletedAt := now, state := Dirty, version := if l.state == Dirty then l.version else l.version + 1) &&
      r.notes == Cascade(db.notes, id, now) && r.baseVersions == db.baseVersions
  {
    if id !in db.labels || db.labels[id].deletedAt > 0 then db
    else
      var l := db.labels[id];
      if NeverSynced(l) then db.(labels := db.labels - {id})
      else
        var tomb := l.(deletedAt := now, state := Dirty, version := if l.state == Dirty then l.version else l.version + 1);
        db.(labels := db.labels[id := tomb], notes := Cascade(db.notes, id, now))
  }

  /** Untagging removes exactly the deleted label and keeps the order of
      the others. */
  lemma {:induction false} UntagRemoves(n: Note, id: Id, now: int)
    ensures Untag(n, id, now).labels.Some?
    ensures !HasLabel(Untag(n, id, now), id)
    ensures forall x :: x != id ==> (HasLabel(Untag(n, id, now), x) <==> HasLabel(n, x))
  {
    var ls := n.labels.GetOr([]);
    forall x
      ensures x in Filter(ls, (y: Id) => y != id) <==> x in ls && x != id
    {
      FilterMember(ls, (y: Id) => y != id, x);
    }
  }

  /** After a label is tombstoned no live note carries it; a synced note the
      cascade touched is now dirty one version up. */
  lemma DeleteLabelCascade(db: Db, id: Id, now: int)
    requires id in db.labels && db.labels[id].deletedAt <= 0 && !NeverSynced(db.labels[id])
    ensures var r := DeleteLabel(db, id, now);
      (forall k :: k in r.notes && r.notes[k].deletedAt == 0 ==> !HasLabel(r.notes[k], id)) &&
      (forall k :: k in db.notes && db.notes[k].deletedAt == 0 && HasLabel(db.notes[k], id) ==>
        r.notes[k].state == Dirty && r.notes[k].updatedAt == now &&
        r.notes[k].version == (if db.notes[k].state == Synced then db.notes[k].version + 1 else db.notes[k].version))
  {
    var r := DeleteLabel(db, id, now);
    forall k | k in r.notes && r.notes[k].deletedAt == 0
      ensures !HasLabel(r.notes[k], id)
    {
      if db.notes[k].deletedAt == 0 && HasLabel(db.notes[k], id) {
        UntagRemoves(db.notes[k], id, now);
      }
    }
  }
}
