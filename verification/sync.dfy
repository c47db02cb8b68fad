/** The client half of a sync round: which records are uploaded, and how
    the records the server returns (pulled and conflicting) are applied to
    the local tables, guarding against edits made while the round was in
    flight. Encryption and the request itself are outside the model: the
    round is given the server's answer already decrypted. */
module Sync {
  import opened Common
  import opened Models
  import opened Codec
  import opened Merge
  import opened NoteMerge
  import opened Store

  /** The server's answer: a failure (with whether it was a 401), or the
      pulled records, the conflicting records and the new cursor. */
  datatype SyncResponse = Failure(error: string, unauthorized: bool)
                        | Success(puts: seq<Put>, conflicts: seq<Put>, syncedTo: int)

  /** The notes a round uploads: dirty and not empty. */
  predicate Uploadable(n: Note) {
    n.state == Dirty && !NotesIsEmpty(n)
  }

  predicate IsDirtyLabel(l: Label) {
    l.state == Dirty
  }

  /** `syncNotes` does nothing without a key pair, when logged out, or
      while a round is already running. */
  predicate CanSync(c: Client) {
    c.user.keyTokenPair.Some? && c.user.loggedIn && !c.syncing
  }

  /** The start of `syncNotes`: the guard, the `syncing` flag, and the
      records to upload (`dirtyNotes` and `dirtyLabels` are the results of
      the two table queries). */
  function StartSync(c: Client, json: Json, dirtyNotes: seq<Note>, dirtyLabels: seq<Label>): (r: Option<(Client, seq<Put>)>)
    requires Lists(c.db.notes, NoteId, Uploadable, dirtyNotes)
    requires Lists(c.db.labels, LabelId, IsDirtyLabel, dirtyLabels)
    ensures r.None? <==> !CanSync(c)
    ensures r.Some? ==> r.value.0 == c.(syncing := true)
    ensures r.Some? ==> |r.value.1| == |dirtyNotes| + |dirtyLabels|
    ensures r.Some? ==> forall p :: p in r.value.1 ==>
      (p.kind != LabelPut && p.id in c.db.notes && Uploadable(c.db.notes[p.id]) && p == NoteToPut(json, c.db.notes[p.id])) ||
      (p.kind == LabelPut && p.id in c.db.labels && IsDirtyLabel(c.db.labels[p.id]) && p == LabelToPut(json, c.db.labels[p.id]))
    ensures r.Some? ==> forall k :: k in c.db.notes && Uploadable(c.db.notes[k]) ==> NoteToPut(json, c.db.notes[k]) in r.value.1
    ensures r.Some? ==> forall k :: k in c.db.labels && IsDirtyLabel(c.db.labels[k]) ==> LabelToPut(json, c.db.labels[k]) in r.value.1
  {
    if !CanSync(c) then None
    else Some((c.(syncing := true), NotePuts(json, c.db.notes, dirtyNotes) + LabelPuts(json, c.db.labels, dirtyLabels)))
  }

  /** The uploads for the dirty non-empty notes. */
  function NotePuts(json: Json, notes: map<Id, Note>, dirty: seq<Note>): (r: seq<Put>)
    requires Lists(notes, NoteId, Uploadable, dirty)
    ensures |r| == |dirty|
    ensures forall p :: p in r ==>
      p.kind != LabelPut && p.id in notes && Uploadable(notes[p.id]) && p == NoteToPut(json, notes[p.id])
    ensures forall k :: k in notes && Uploadable(notes[k]) ==> NoteToPut(json, notes[k]) in r
  {
    var r := Map(dirty, n => NoteToPut(json, n));
    forall k | k in notes && Uploadable(notes[k]) ensures NoteToPut(json, notes[k]) in r {
      var i :| 0 <= i < |dirty| && dirty[i] == notes[k];
      assert r[i] == NoteToPut(json, notes[k]);
    }
    r
  }

  /** The uploads for the dirty labels. */
  function LabelPuts(json: Json, labels: map<Id, Label>, dirty: seq<Label>): (r: seq<Put>)
    requires Lists(labels, LabelId, IsDirtyLabel, dirty)
    ensures |r| == |dirty|
    ensures forall p :: p in r ==>
      p.kind == LabelPut && p.id in labels && IsDirtyLabel(labels[p.id]) && p == LabelToPut(json, labels[p.id])
    ensures forall k :: k in labels && IsDirtyLabel(labels[k]) ==> LabelToPut(json, labels[k]) in r
  {
    var r := Map(dirty, l => LabelToPut(json, l));
    forall k | k in labels && IsDirtyLabel(labels[k]) ensures LabelToPut(json, labels[k]) in r {
      var i :| 0 <= i < |dirty| && dirty[i] == labels[k];
      assert r[i] == LabelToPut(json, labels[k]);
    }
    r
  }

  /** How a returned record meets the stored one with its id. */
  datatype Decision =
    | KeepBump   // edited locally after the upload: keep it, one version up
    | KeepLocal  // the stored copy is at least as new and differs
    | Replace    // take the returned record

  /** The per-record rule of the apply step. `uploadedAt` is the
      `updated_at` of the copy this round uploaded, if it uploaded one. */
  function Decide(currUpdatedAt: int, currVersion: int, uploadedAt: Option<int>,
                  incomingUpdatedAt: int, incomingVersion: int): (d: Decision)
    ensures d == KeepBump <==> uploadedAt.Some? && currUpdatedAt > uploadedAt.value
    ensures d == KeepLocal <==>
      !(uploadedAt.Some? && currUpdatedAt > uploadedAt.value) && currVersion >= incomingVersion && currUpdatedAt != incomingUpdatedAt
  {
    if uploadedAt.Some? && currUpdatedAt > uploadedAt.value then KeepBump
    else if currVersion >= incomingVersion && currUpdatedAt != incomingUpdatedAt then KeepLocal
    else Replace
  }

  function UploadedAt<T>(uploaded: map<Id, T>, k: Id, updatedAt: T -> int): Option<int> {
    if k in uploaded then Some(updatedAt(uploaded[k])) else None
  }

  function NoteUpdatedAt(n: Note): int { n.updatedAt }

  function LabelUpdatedAt(l: Label): int { l.updatedAt }

  function NoteDecision(curr: Note, uploaded: map<Id, Note>, incoming: Note): Decision {
    Decide(curr.updatedAt, curr.version, UploadedAt(uploaded, curr.id, NoteUpdatedAt), incoming.updatedAt, incoming.version)
  }

  function LabelDecision(curr: Label, uploaded: map<Id, Label>, incoming: Label): Decision {
    Decide(curr.updatedAt, curr.version, UploadedAt(uploaded, curr.id, LabelUpdatedAt), incoming.updatedAt, incoming.version)
  }

  /** The note the apply step leaves for one id present on both sides. */
  function ApplyNote(curr: Note, uploaded: map<Id, Note>, incoming: Note): (r: Note)
    ensures NoteDecision(curr, uploaded, incoming) == KeepBump ==> r == curr.(version := curr.version + 1)
    ensures NoteDecision(curr, uploaded, incoming) == KeepLocal ==> r == curr
    ensures NoteDecision(curr, uploaded, incoming) == Replace ==> r == incoming
  {
    match NoteDecision(curr, uploaded, incoming)
    case KeepBump => curr.(version := curr.version + 1)
    case KeepLocal => curr
    case Replace => incoming
  }

  function ApplyLabel(curr: Label, uploaded: map<Id, Label>, incoming: Label): (r: Label)
    ensures LabelDecision(curr, uploaded, incoming) == KeepBump ==> r == curr.(version := curr.version + 1)
    ensures LabelDecision(curr, uploaded, incoming) == KeepLocal ==> r == curr
    ensures LabelDecision(curr, uploaded, incoming) == Replace ==> r == incoming
  {
    match LabelDecision(curr, uploaded, incoming)
    case KeepBump => curr.(version := curr.version + 1)
    case KeepLocal => curr
    case Replace => incoming
  }

  /** The notes table after the apply transaction: returned records with
      a stored counterpart go through the rule, the others are inserted,
      and notes not returned are untouched. */
  function ApplyNotes(notes: map<Id, Note>, uploaded: map<Id, Note>, toStore: map<Id, Note>): (r: map<Id, Note>)
    ensures r.Keys == notes.Keys + toStore.Keys
    ensures forall k :: k in notes && k !in toStore ==> r[k] == notes[k]
    ensures forall k :: k in toStore && k !in notes ==> r[k] == toStore[k]
    ensures forall k :: k in toStore && k in notes ==> r[k] == ApplyNote(notes[k], uploaded, toStore[k])
  {
    map k | k in notes.Keys + toStore.Keys ::
      if k !in toStore then notes[k]
      else if k !in notes then toStore[k]
      else ApplyNote(notes[k], uploaded, toStore[k])
  }

  function ApplyLabels(labels: map<Id, Label>, uploaded: map<Id, Label>, toStore: map<Id, Label>): (r: map<Id, Label>)
    ensures r.Keys == labels.Keys + toStore.Keys
    ensures forall k :: k in labels && k !in toStore ==> r[k] == labels[k]
    ensures forall k :: k in toStore && k !in labels ==> r[k] == toStore[k]
    ensures forall k :: k in toStore && k in labels ==> r[k] == ApplyLabel(labels[k], uploaded, toStore[k])
  {
    map k | k in labels.Keys + toStore.Keys ::
      if k !in toStore then labels[k]
      else if k !in labels then toStore[k]
      else ApplyLabel(labels[k], uploaded, toStore[k])
  }

  /** Whether the apply step writes the returned note `k` as a base
      version: it was inserted, or it replaced the stored note and is
      synced. */
  predicate WritesBase(notes: map<Id, Note>, uploaded: map<Id, Note>, toStore: map<Id, Note>, k: Id) {
    k in toStore && (k !in notes || (NoteDecision(notes[k], uploaded, toStore[k]) == Replace && toStore[k].state == Synced))
  }

  /** The base versions after the apply transaction. */
  function ApplyBaseVersions(base: map<Id, Note>, notes: map<Id, Note>, uploaded: map<Id, Note>,
                             toStore: map<Id, Note>): (r: map<Id, Note>)
    ensures r.Keys == base.Keys + (set k | k in toStore && WritesBase(notes, uploaded, toStore, k))
    ensures forall k :: WritesBase(notes, uploaded, toStore, k) ==> r[k] == toStore[k]
    ensures forall k :: k in base && !WritesBase(notes, uploaded, toStore, k) ==> r[k] == base[k]
  {
    var written := map k | k in toStore && WritesBase(notes, uploaded, toStore, k) :: toStore[k];
    base + written
  }

  /** `setOpenNote`: how the editor reacts to the records a round stored. */
  function SetOpenNote(o: Option<OpenNote>, synced: map<Id, Note>): (r: Option<OpenNote>)
    ensures o.None? ==> r.None?
    ensures o.Some? && o.value.id !in synced ==> r == o
    ensures o.Some? && o.value.id in synced && synced[o.value.id].deletedAt != 0 ==> r.None?
    ensures o.Some? && o.value.id in synced && synced[o.value.id].deletedAt == 0 ==>
      var n := synced[o.value.id];
      (n.updatedAt > o.value.updatedAt ==> r == Some(OpenNote(n.id, n.title, n.content, n.updatedAt))) &&
      (n.updatedAt <= o.value.updatedAt ==> r == o)
  {
    if o.None? || o.value.id !in synced then o
    else
      var n := synced[o.value.id];
      if n.deletedAt != 0 then None
      else if n.updatedAt > o.value.updatedAt then Some(OpenNote(n.id, n.title, n.content, n.updatedAt))
      else o
  }

  predicate SyncedTombstone(n: Note) {
    n.deletedAt != 0 && n.state == Synced
  }

  /** The clean-up after applying: synced tombstones leave both tables. */
  function Purge(db: Db): (r: Db)
    ensures r.labels == db.labels
    ensures forall k :: k in r.notes <==> k in db.notes && !SyncedTombstone(db.notes[k])
    ensures forall k :: k in r.notes ==> r.notes[k] == db.notes[k]
    ensures forall k :: k in r.baseVersions <==>
      k in db.baseVersions && !(k in db.notes && SyncedTombstone(db.notes[k]))
    ensures forall k :: k in r.baseVersions ==> r.baseVersions[k] == db.baseVersions[k]
  {
    var gone := set k | k in db.notes && SyncedTombstone(db.notes[k]);
    db.(notes := db.notes - gone, baseVersions := db.baseVersions - gone)
  }

  /** The notes `putToNote` makes of envelopes; `freshId(i)` serves the
      fallback item of the i-th. */
  function PutsToNotes(json: Json, puts: seq<Put>, freshId: nat -> Id, now: int): (r: seq<Note>)
    requires forall i :: 0 <= i < |puts| ==> puts[i].kind != LabelPut
    ensures |r| == |puts|
    ensures forall i :: 0 <= i < |puts| ==> Ok(r[i]) == PutToNote(json, puts[i], freshId(i), now)
    ensures NoteIds(r) == set p | p in puts :: p.id
    ensures forall n :: n in r ==> n.state == Synced
  {
    seq(|puts|, i requires 0 <= i < |puts| => PutToNote(json, puts[i], freshId(i), now).value)
  }

  function PutsToLabels(json: Json, puts: seq<Put>): (r: seq<Label>)
    requires forall i :: 0 <= i < |puts| ==> puts[i].kind == LabelPut
    ensures |r| == |puts|
    ensures forall i :: 0 <= i < |puts| ==> Ok(r[i]) == PutToLabel(json, puts[i])
    ensures (set l | l in r :: l.id) == set p | p in puts :: p.id
  {
    seq(|puts|, i requires 0 <= i < |puts| => PutToLabel(json, puts[i]).value)
  }

  predicate IsLabelPut(p: Put) { p.kind == LabelPut }

  predicate IsNotePut(p: Put) { p.kind != LabelPut }

  /** How a conflicting note is kept in the conflict queue: the queue
      holds the note object itself, so the dialog sees its text (a todo
      list has none), its type and its deletion time. */
  function QueuedPut(n: Note): (p: Put)
    ensures p.id == n.id && p.kind == PutTypeOf(n.Type()) && p.createdAt == n.createdAt &&
            p.updatedAt == n.updatedAt && p.version == n.version && p.deletedAt == Some(n.deletedAt)
    ensures p.txt == (if n.content.Text? then Some(n.content.txt) else None)
  {
    Put(n.id, PutTypeOf(n.Type()), n.createdAt, n.updatedAt, n.version, Some(n.deletedAt),
        if n.content.Text? then Some(n.content.txt) else None)
  }

  /** The ids of some notes. */
  function NoteIds(ns: seq<Note>): set<Id> {
    set n | n in ns :: n.id
  }

  /** The ids of the envelopes that satisfy `p`. */
  function PutIds(ps: seq<Put>, p: Put -> bool): set<Id> {
    set x | x in ps && p(x) :: x.id
  }

  /** What the apply step computes from the answer before writing: the
      records to store by id, the merge results among them, and the
      conflicts left for the user. */
  datatype Plan = Plan(toStore: map<Id, Note>, labelsToStore: map<Id, Label>, merged: seq<Note>, conflicts: seq<Note>)

  /** The two halves of a fresh-id supply, so that pulled notes and
      conflicting notes never draw the same id. */
  function EvenIds(freshId: nat -> Id): nat -> Id {
    (i: nat) => freshId(2 * i)
  }

  function OddIds(freshId: nat -> Id): nat -> Id {
    (i: nat) => freshId(2 * i + 1)
  }

  /** Parses, splits and merges the answer; `Err` when a merge throws. The
      notes to store are the pulled notes and the merge results, a merge
      result winning over a pulled note with its id; each conflicting note
      is merged or queued; the labels to store are the pulled labels and
      the merged label conflicts, the latter winning. */
  function PlanSync(json: Json, diff3: Diff3, mergeIds: IdMerge, dirtyNotes: seq<Note>, dirtyLabels: seq<Label>,
                    baseList: seq<Note>, puts: seq<Put>, conflicts: seq<Put>, freshId: nat -> Id, now: int): (r: Result<Plan>)
    ensures r.Ok? ==> forall k :: k in r.value.toStore ==> r.value.toStore[k].id == k
    ensures r.Ok? ==> forall k :: k in r.value.labelsToStore ==> r.value.labelsToStore[k].id == k
    ensures r.Ok? ==> r.value.toStore.Keys == PutIds(puts, IsNotePut) + NoteIds(r.value.merged)
    ensures r.Ok? ==> forall k :: k in NoteIds(r.value.merged) ==> r.value.toStore[k] in r.value.merged
    ensures r.Ok? ==> PulledFrom(json, puts, freshId, now, r.value.toStore, r.value.merged)
    ensures r.Ok? ==> forall m :: m in r.value.merged ==>
      m.state == Dirty && m.deletedAt == 0 && m.id in PutIds(conflicts, IsNotePut)
    ensures r.Ok? ==> |r.value.merged| + |r.value.conflicts| == |Filter(conflicts, IsNotePut)|
    ensures r.Ok? ==> forall k :: k in PutIds(conflicts, IsNotePut) ==> k in NoteIds(r.value.merged) || k in NoteIds(r.value.conflicts)
    ensures r.Ok? ==> forall n :: n in r.value.conflicts ==> n.id in PutIds(conflicts, IsNotePut) && n.state == Synced
    ensures r.Ok? ==> r.value.labelsToStore.Keys == PutIds(puts, IsLabelPut) + PutIds(conflicts, IsLabelPut)
    ensures r.Ok? ==> forall k :: k in PutIds(conflicts, IsLabelPut) ==> r.value.labelsToStore[k].state == Dirty
    ensures r.Ok? ==> LabelsPulledFrom(json, puts, conflicts, r.value.labelsToStore)
    ensures (exists p :: p in conflicts && IsLabelPut(p) && FindLabel(dirtyLabels, p.id).None?) ==> r.Err?
  {
    match PlanNotes(json, diff3, mergeIds, dirtyNotes, baseList, puts, conflicts, freshId, now)
    case Err(m) => Err(m)
    case Ok(notes) =>
      match PlanLabels(json, dirtyLabels, puts, conflicts)
      case Err(m) => Err(m)
      case Ok(labels) => Ok(Plan(notes.toStore, labels, notes.merged, notes.conflicts))
  }

  /** Every note to store that is not a merge result is the decoding of a
      pulled note put, numbered by its place among them. */
  predicate PulledFrom(json: Json, puts: seq<Put>, freshId: nat -> Id, now: int, toStore: map<Id, Note>, merged: seq<Note>)
  {
    forall k :: k in toStore && k !in NoteIds(merged) ==>
      var pulled := Filter(puts, IsNotePut);
      exists i :: 0 <= i < |pulled| && PutToNote(json, pulled[i], EvenIds(freshId)(i), now) == Ok(toStore[k])
  }

  /** Every label to store that is not a merged conflict is the decoding of
      a pulled label put. */
  predicate LabelsPulledFrom(json: Json, puts: seq<Put>, conflicts: seq<Put>, labels: map<Id, Label>)
  {
    forall k :: k in labels && k !in PutIds(conflicts, IsLabelPut) ==>
      exists p :: p in puts && IsLabelPut(p) && PutToLabel(json, p) == Ok(labels[k])
  }

  /** The note half of the plan: pulled notes decoded, conflicting notes
      merged, and both keyed by id with merged notes winning. */
  datatype NotePlanned = NotePlanned(toStore: map<Id, Note>, merged: seq<Note>, conflicts: seq<Note>)

  function PlanNotes(json: Json, diff3: Diff3, mergeIds: IdMerge, dirtyNotes: seq<Note>, baseList: seq<Note>,
                     puts: seq<Put>, conflicts: seq<Put>, freshId: nat -> Id, now: int): (r: Result<NotePlanned>)
    ensures r.Ok? ==> forall k :: k in r.value.toStore ==> r.value.toStore[k].id == k
    ensures r.Ok? ==> r.value.toStore.Keys == PutIds(puts, IsNotePut) + NoteIds(r.value.merged)
    ensures r.Ok? ==> forall k :: k in NoteIds(r.value.merged) ==> r.value.toStore[k] in r.value.merged
    ensures r.Ok? ==> PulledFrom(json, puts, freshId, now, r.value.toStore, r.value.merged)
    ensures r.Ok? ==> forall m :: m in r.value.merged ==>
      m.state == Dirty && m.deletedAt == 0 && m.id in PutIds(conflicts, IsNotePut)
    ensures r.Ok? ==> |r.value.merged| + |r.value.conflicts| == |Filter(conflicts, IsNotePut)|
    ensures r.Ok? ==> forall k :: k in PutIds(conflicts, IsNotePut) ==> k in NoteIds(r.value.merged) || k in NoteIds(r.value.conflicts)
    ensures r.Ok? ==> forall n :: n in r.value.conflicts ==> n.id in PutIds(conflicts, IsNotePut) && n.state == Synced
  {
    var pullPuts, conflictPuts := Filter(puts, IsNotePut), Filter(conflicts, IsNotePut);
    var pullNotes := PutsToNotes(json, pullPuts, EvenIds(freshId), now);
    var conflictNotes := PutsToNotes(json, conflictPuts, OddIds(freshId), now);
    FilterPutIds(puts, IsNotePut);
    FilterPutIds(conflicts, IsNotePut);
    match MergeConflicts(diff3, mergeIds, baseList, dirtyNotes, conflictNotes, now)
    case Err(m) => Err(m)
    case Ok(merged) =>
      NotePlan(pullNotes, conflictNotes, merged);
      var toStore := IndexBy(pullNotes + merged.merged, NoteId);
      PulledStored(json, puts, freshId, now, toStore, merged.merged);
      Ok(NotePlanned(toStore, merged.merged, merged.conflicts))
  }

  /** The label half of the plan: pulled labels decoded and conflicting
      labels merged, keyed by id with merged labels winning. */
  function PlanLabels(json: Json, dirtyLabels: seq<Label>, puts: seq<Put>, conflicts: seq<Put>): (r: Result<map<Id, Label>>)
    ensures r.Ok? ==> forall k :: k in r.value ==> r.value[k].id == k
    ensures r.Ok? ==> r.value.Keys == PutIds(puts, IsLabelPut) + PutIds(conflicts, IsLabelPut)
    ensures r.Ok? ==> forall k :: k in PutIds(conflicts, IsLabelPut) ==> r.value[k].state == Dirty
    ensures r.Ok? ==> LabelsPulledFrom(json, puts, conflicts, r.value)
    ensures (exists p :: p in conflicts && IsLabelPut(p) && FindLabel(dirtyLabels, p.id).None?) ==> r.Err?
  {
    var pullLabels := PutsToLabels(json, Filter(puts, IsLabelPut));
    var conflictLabels := PutsToLabels(json, Filter(conflicts, IsLabelPut));
    LabelConflictAborts(json, dirtyLabels, conflicts);
    match MergeLabelConflicts(dirtyLabels, conflictLabels)
    case Err(m) => Err(m)
    case Ok(mergedLabels) =>
      LabelKeys(json, puts, conflicts, mergedLabels);
      LabelPrecedence(json, puts, conflicts, mergedLabels);
      Ok(IndexBy(pullLabels + mergedLabels, LabelId))
  }

  /** Filtering envelopes and then taking ids is taking the ids of the
      envelopes that pass. */
  lemma FilterPutIds(ps: seq<Put>, p: Put -> bool)
    ensures (set x | x in Filter(ps, p) :: x.id) == PutIds(ps, p)
  {
    forall x | x in ps && p(x) ensures x in Filter(ps, p) {
      FilterMember(ps, p, x);
    }
  }

  /** A pulled note that a merge did not replace is the decoding of one of
      the pulled envelopes. */
  lemma PulledDecoded(json: Json, pulled: seq<Put>, freshId: nat -> Id, now: int, n: Note)
    requires forall i :: 0 <= i < |pulled| ==> pulled[i].kind != LabelPut
    requires n in PutsToNotes(json, pulled, freshId, now)
    ensures exists i :: 0 <= i < |pulled| && PutToNote(json, pulled[i], freshId(i), now) == Ok(n)
  {
    var ns := PutsToNotes(json, pulled, freshId, now);
    var i :| 0 <= i < |ns| && ns[i] == n;
    assert PutToNote(json, pulled[i], freshId(i), now) == Ok(n);
  }

  /** Stored notes that come from the decoded pulled notes satisfy
      `PulledFrom`. */
  lemma PulledStored(json: Json, puts: seq<Put>, freshId: nat -> Id, now: int, toStore: map<Id, Note>, merged: seq<Note>)
    requires forall k :: k in toStore && k !in NoteIds(merged) ==>
      toStore[k] in PutsToNotes(json, Filter(puts, IsNotePut), EvenIds(freshId), now)
    ensures PulledFrom(json, puts, freshId, now, toStore, merged)
  {
    var pulled := Filter(puts, IsNotePut);
    forall k | k in toStore && k !in NoteIds(merged)
      ensures exists i :: 0 <= i < |pulled| && PutToNote(json, pulled[i], EvenIds(freshId)(i), now) == Ok(toStore[k])
    {
      PulledDecoded(json, pulled, EvenIds(freshId), now, toStore[k]);
    }
  }

  /** A label conflict with no local label makes the label merge throw. */
  lemma LabelConflictAborts(json: Json, dirtyLabels: seq<Label>, conflicts: seq<Put>)
    ensures (exists p :: p in conflicts && IsLabelPut(p) && FindLabel(dirtyLabels, p.id).None?) ==>
      MergeLabelConflicts(dirtyLabels, PutsToLabels(json, Filter(conflicts, IsLabelPut))).Err?
  {
    if p :| p in conflicts && IsLabelPut(p) && FindLabel(dirtyLabels, p.id).None? {
      var sel := Filter(conflicts, IsLabelPut);
      var ls := PutsToLabels(json, sel);
      FilterMember(conflicts, IsLabelPut, p);
      var i :| 0 <= i < |sel| && sel[i] == p;
      assert ls[i].id == p.id;
    }
  }

  /** The note half of the plan: keys, precedence of merge results, and
      the split of the conflicting notes into merged and queued. */
  lemma NotePlan(pullNotes: seq<Note>, conflictNotes: seq<Note>, merged: Merged)
    requires forall n :: n in conflictNotes ==> n.state == Synced
    requires forall n :: n in merged.conflicts ==> n in conflictNotes
    requires forall sc :: sc in conflictNotes ==> sc in merged.conflicts || exists m :: m in merged.merged && m.id == sc.id
    requires forall m :: m in merged.merged ==> exists sc :: sc in conflictNotes && sc.id == m.id
    ensures var t := IndexBy(pullNotes + merged.merged, NoteId);
      t.Keys == NoteIds(pullNotes) + NoteIds(merged.merged) &&
      (forall k :: k in NoteIds(merged.merged) ==> t[k] in merged.merged) &&
      (forall k :: k in t && k !in NoteIds(merged.merged) ==> t[k] in pullNotes)
    ensures forall m :: m in merged.merged ==> m.id in NoteIds(conflictNotes)
    ensures forall k :: k in NoteIds(conflictNotes) ==> k in NoteIds(merged.merged) || k in NoteIds(merged.conflicts)
    ensures forall n :: n in merged.conflicts ==> n.id in NoteIds(conflictNotes) && n.state == Synced
  {
    var t := IndexBy(pullNotes + merged.merged, NoteId);
    IndexByAppend(pullNotes, merged.merged, NoteId);
    IndexByKeysAppend(pullNotes, merged.merged, NoteId);
    forall k ensures k in t <==> k in NoteIds(pullNotes) + NoteIds(merged.merged) {
      if k in t {
        if x :| x in pullNotes && NoteId(x) == k {
          assert x.id == k;
        } else {
          var x :| x in merged.merged && NoteId(x) == k;
          assert x.id == k;
        }
      }
      if x :| x in pullNotes && x.id == k {
        assert NoteId(x) == k;
      }
      if x :| x in merged.merged && x.id == k {
        assert NoteId(x) == k;
      }
    }
    forall k | k in NoteIds(merged.merged) ensures t[k] in merged.merged {
      var m :| m in merged.merged && m.id == k;
      assert NoteId(m) == k;
    }
    forall k | k in t && k !in NoteIds(merged.merged) ensures t[k] in pullNotes {
      forall x | x in merged.merged ensures NoteId(x) != k {
        assert x.id in NoteIds(merged.merged);
      }
    }
    forall m | m in merged.merged ensures m.id in NoteIds(conflictNotes) {
      var sc :| sc in conflictNotes && sc.id == m.id;
    }
    forall k | k in NoteIds(conflictNotes) ensures k in NoteIds(merged.merged) || k in NoteIds(merged.conflicts) {
      var sc :| sc in conflictNotes && sc.id == k;
    }
  }

  /** The labels merged from conflicts carry exactly the conflicts' ids. */
  lemma MergedLabelIds(conflictLabels: seq<Label>, mergedLabels: seq<Label>)
    requires |mergedLabels| == |conflictLabels|
    requires forall i :: 0 <= i < |conflictLabels| ==> mergedLabels[i].id == conflictLabels[i].id
    ensures (set l | l in mergedLabels :: l.id) == (set c | c in conflictLabels :: c.id)
  {
    forall l | l in mergedLabels ensures l.id in (set c | c in conflictLabels :: c.id) {
      var i :| 0 <= i < |mergedLabels| && mergedLabels[i] == l;
      assert conflictLabels[i] in conflictLabels;
    }
    forall c | c in conflictLabels ensures c.id in (set l | l in mergedLabels :: l.id) {
      var i :| 0 <= i < |conflictLabels| && conflictLabels[i] == c;
      assert mergedLabels[i] in mergedLabels;
    }
  }

  /** The keys of the labels to store. */
  lemma LabelKeys(json: Json, puts: seq<Put>, conflicts: seq<Put>, mergedLabels: seq<Label>)
    requires |mergedLabels| == |Filter(conflicts, IsLabelPut)|
    requires forall i :: 0 <= i < |mergedLabels| ==>
      mergedLabels[i].id == PutsToLabels(json, Filter(conflicts, IsLabelPut))[i].id
    ensures IndexBy(PutsToLabels(json, Filter(puts, IsLabelPut)) + mergedLabels, LabelId).Keys ==
      PutIds(puts, IsLabelPut) + PutIds(conflicts, IsLabelPut)
  {
    var pullLabels := PutsToLabels(json, Filter(puts, IsLabelPut));
    var conflictLabels := PutsToLabels(json, Filter(conflicts, IsLabelPut));
    FilterPutIds(puts, IsLabelPut);
    FilterPutIds(conflicts, IsLabelPut);
    IndexByKeysAppend(pullLabels, mergedLabels, LabelId);
    MergedLabelIds(conflictLabels, mergedLabels);
    var t := IndexBy(pullLabels + mergedLabels, LabelId);
    forall k ensures k in t <==> k in PutIds(puts, IsLabelPut) + PutIds(conflicts, IsLabelPut) {
      if x :| x in pullLabels && LabelId(x) == k {
        assert k in (set l | l in pullLabels :: l.id);
      }
      if x :| x in pullLabels && x.id == k {
        assert LabelId(x) == k;
      }
      if x :| x in mergedLabels && LabelId(x) == k {
        assert x.id in (set l | l in mergedLabels :: l.id);
      }
      if k in PutIds(conflicts, IsLabelPut) {
        assert k in (set l | l in mergedLabels :: l.id);
        var x :| x in mergedLabels && x.id == k;
        assert LabelId(x) == k;
      }
    }
  }

  /** Merged label conflicts win over pulled labels; any other label to
      store is a decoded pulled label. */
  lemma LabelPrecedence(json: Json, puts: seq<Put>, conflicts: seq<Put>, mergedLabels: seq<Label>)
    requires |mergedLabels| == |Filter(conflicts, IsLabelPut)|
    requires forall i :: 0 <= i < |mergedLabels| ==>
      mergedLabels[i].id == PutsToLabels(json, Filter(conflicts, IsLabelPut))[i].id && mergedLabels[i].state == Dirty
    ensures var t := IndexBy(PutsToLabels(json, Filter(puts, IsLabelPut)) + mergedLabels, LabelId);
      (forall k :: k in t && k in PutIds(conflicts, IsLabelPut) ==> t[k].state == Dirty) &&
      (forall k :: k in t && k !in PutIds(conflicts, IsLabelPut) ==>
        exists p :: p in puts && IsLabelPut(p) && PutToLabel(json, p) == Ok(t[k]))
  {
    var pulled := Filter(puts, IsLabelPut);
    var pullLabels := PutsToLabels(json, pulled);
    var conflictLabels := PutsToLabels(json, Filter(conflicts, IsLabelPut));
    var t := IndexBy(pullLabels + mergedLabels, LabelId);
    FilterPutIds(conflicts, IsLabelPut);
    IndexByAppend(pullLabels, mergedLabels, LabelId);
    MergedLabelIds(conflictLabels, mergedLabels);
    forall k | k in t && k in PutIds(conflicts, IsLabelPut) ensures t[k].state == Dirty {
      assert k in (set l | l in mergedLabels :: l.id);
      var x :| x in mergedLabels && x.id == k;
      assert LabelId(x) == k;
      var i :| 0 <= i < |mergedLabels| && mergedLabels[i] == t[k];
    }
    forall k | k in t && k !in PutIds(conflicts, IsLabelPut)
      ensures exists p :: p in puts && IsLabelPut(p) && PutToLabel(json, p) == Ok(t[k])
    {
      forall x | x in mergedLabels ensures LabelId(x) != k {
        assert x.id in (set l | l in mergedLabels :: l.id);
      }
      var i :| 0 <= i < |pullLabels| && pullLabels[i] == t[k];
      assert pulled[i] in pulled;
    }
  }

  /** The database writes of a successful round, before the clean-up. */
  function ApplyPlan(db: Db, dirtyNotes: seq<Note>, dirtyLabels: seq<Label>, plan: Plan): (r: Db)
    ensures r.notes == ApplyNotes(db.notes, IndexBy(dirtyNotes, NoteId), plan.toStore)
    ensures r.labels == ApplyLabels(db.labels, IndexBy(dirtyLabels, LabelId), plan.labelsToStore)
    ensures r.baseVersions == ApplyBaseVersions(db.baseVersions, db.notes, IndexBy(dirtyNotes, NoteId), plan.toStore)
  {
    var uploaded := IndexBy(dirtyNotes, NoteId);
    Db(ApplyNotes(db.notes, uploaded, plan.toStore),
       ApplyBaseVersions(db.baseVersions, db.notes, uploaded, plan.toStore),
       ApplyLabels(db.labels, IndexBy(dirtyLabels, LabelId), plan.labelsToStore))
  }

  /** The ids of the conflicting records of an answer (labels included,
      as in the source's query); none for a failure. */
  function ConflictIds(resp: SyncResponse): set<Id> {
    if resp.Success? then set p | p in resp.conflicts :: p.id else {}
  }

  /** The filter of the base-version query: a note whose id is among the
      answer's conflict ids. */
  function InConflict(resp: SyncResponse): Note -> bool {
    (n: Note) => n.id in ConflictIds(resp)
  }

  /** The end of `syncNotes`, applied to the state `c` at the time the
      answer arrives (edits may have happened meanwhile). `dirtyNotes` and
      `dirtyLabels` are what the round uploaded; `baseList` is the result of
      the query of the stored base versions with the ids of the conflicting
      records, made when the answer arrives. */
  function FinishSync(c: Client, json: Json, diff3: Diff3, mergeIds: IdMerge, dirtyNotes: seq<Note>,
                      dirtyLabels: seq<Label>, baseList: seq<Note>, resp: SyncResponse,
                      freshId: nat -> Id, now: int): (r: Client)
    requires Lists(c.db.baseVersions, NoteId, InConflict(resp), baseList)
    ensures !r.syncing
    ensures resp.Failure? ==>
      r == c.(syncError := Some(resp.error), user := c.user.(loggedIn := c.user.loggedIn && !resp.unauthorized),
              syncing := false)
    ensures resp.Success? ==>
      var plan := PlanSync(json, diff3, mergeIds, dirtyNotes, dirtyLabels, baseList, resp.puts, resp.conflicts, freshId, now);
      (plan.Err? ==> r == c.(syncError := Some(plan.message), syncing := false)) &&
      (plan.Ok? ==>
        r.db == Purge(ApplyPlan(c.db, dirtyNotes, dirtyLabels, plan.value)) &&
        r.openNote == SetOpenNote(c.openNote, plan.value.toStore) &&
        r.conflicts == Map(plan.value.conflicts, QueuedPut) &&
        r.user == c.user.(lastSyncedTo := resp.syncedTo) && r.syncError.None? &&
        (forall k :: k in r.db.notes ==> !SyncedTombstone(r.db.notes[k])))
  {
    match resp
    case Failure(error, unauthorized) =>
      c.(syncError := Some(error), user := c.user.(loggedIn := c.user.loggedIn && !unauthorized), syncing := false)
    case Success(puts, conflicts, syncedTo) =>
      match PlanSync(json, diff3, mergeIds, dirtyNotes, dirtyLabels, baseList, puts, conflicts, freshId, now)
      case Err(m) => c.(syncError := Some(m), syncing := false)
      case Ok(plan) =>
        c.(db := Purge(ApplyPlan(c.db, dirtyNotes, dirtyLabels, plan)),
           openNote := SetOpenNote(c.openNote, plan.toStore),
           conflicts := Map(plan.conflicts, QueuedPut),
           user := c.user.(lastSyncedTo := syncedTo),
           syncError := None,
           syncing := false)
  }

  /** A record edited after its upload is never overwritten by the round:
      it keeps its content and moves one version up. */
  lemma RaceKeepsLocalEdit(curr: Note, uploaded: map<Id, Note>, incoming: Note)
    requires curr.id in uploaded && curr.updatedAt > uploaded[curr.id].updatedAt
    ensures ApplyNote(curr, uploaded, incoming) == curr.(version := curr.version + 1)
  {
  }

  /** A stored note left as uploaded takes any returned copy with a
      higher version, such as a merge result. */
  lemma UntouchedTakesNewerVersion(curr: Note, uploaded: map<Id, Note>, incoming: Note)
    requires curr.id in uploaded && uploaded[curr.id] == curr
    requires incoming.version > curr.version
    ensures ApplyNote(curr, uploaded, incoming) == incoming
  {
  }

  /** The apply rule never lowers a version, except when it takes a
      returned copy with the same edit time. */
  lemma ApplyVersionMonotone(curr: Note, uploaded: map<Id, Note>, incoming: Note)
    ensures var r := ApplyNote(curr, uploaded, incoming);
      r.version >= curr.version || r.updatedAt == curr.updatedAt
  {
  }

  /** A merge result (version above the server's, which is the version
      the local record was in conflict with) lands in the notes table when
      the note was not edited during the round. */
  lemma MergedNoteLands(c: Client, dirtyNotes: seq<Note>, dirtyLabels: seq<Label>, plan: Plan, k: Id)
    requires WellKeyed(c.db)
    requires Lists(c.db.notes, NoteId, Uploadable, dirtyNotes)
    requires k in plan.toStore && k in c.db.notes && Uploadable(c.db.notes[k])
    requires plan.toStore[k].version > c.db.notes[k].version
    ensures ApplyPlan(c.db, dirtyNotes, dirtyLabels, plan).notes[k] == plan.toStore[k]
  {
    ListsIndex(c.db.notes, NoteId, Uploadable, dirtyNotes);
    var uploaded := IndexBy(dirtyNotes, NoteId);
    assert k in uploaded && uploaded[k] == c.db.notes[k];
    UntouchedTakesNewerVersion(c.db.notes[k], uploaded, plan.toStore[k]);
  }
}
