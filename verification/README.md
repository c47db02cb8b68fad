# cipher-notes: a Dafny model of sync, merge and the endpoints around them

cipher-notes is a local-first notes app with end-to-end encryption. The
browser keeps notes and labels in an IndexedDB store. Each record carries a
`version`, a `state` (`dirty` or `synced`) and a `deleted_at` tombstone stamp.
The server stores only encrypted records per user. It exchanges them with
clients through one sync endpoint, behind a login by e-mailed one-time codes.

This project models that core as immutable datatypes and pure functions:

- **Client store.** The local store is a map from id to note, plus a
  base-version map, the editor slot and the sync cursor (`Store`, `Models`).
- **Client actions.** These are functions from one client state to the
  next (`Editor`, `Sync`, `Conflicts`, `Labels`, `NoteImport`, `User`).
- **Records and merging.** The record codec (`Codec`, `Encryption`) and
  the merge engine (`Merge`, `NoteMerge`).
- **Server.** The tables are sequences of rows (`ServerSchema`). The
  handlers are functions from the tables and the request to the new tables
  and the reply (`ServerSync`, `ServerAuth`, `ServerCleanup`, `ServerMisc`).
- **Utilities.** `Levenshtein`, `XSet`, `Undo`, `Debounce`, `Misc`,
  `Strings`.

Collaborators the code calls but does not define are function-valued
parameters, constrained only by what the callers rely on:

- the `diff3` merge and the id-list merge;
- JSON parsing and the schema checks;
- the cipher, base64 decoding and the checksum;
- lowercasing.

Text is a Dafny `string`, a sequence of Unicode scalar values. JavaScript
strings are sequences of UTF-16 code units. Where the code counts or
compares code units (`length`, `slice`, `charCodeAt`), the model works on
the encoding `Strings.Utf16` gives, a `seq<CodeUnit>`.

Time, fresh ids and random draws are parameters too: `Date.now()`,
`crypto.randomUUID()` and `Math.random()`. One request or action sees one
`now`.

A handler's reply is `Reply(db, result)`. The result is a value or the
message of the error the handler throws. That message is not always what the
client sees: the result handler (backend/src/endpointsFactory.ts:13-20)
answers every error that is not an HTTP error, such as a database
violation, with status 500 and "Internal Server Error". Writes issued before a throw stay in
`db`, because only an explicit transaction rolls back. Every SQL `UPDATE`
refreshes the row's update stamp to `now`, as the schema's `$onUpdate`
defaults do.

The files come from different generations of the program:

- The server and `notesEncryption.ts` speak a creates/updates/deletes wire
  format.
- The client store code speaks puts and conflicts.

Each file is modelled as written. The server shown does no version checks
and returns no conflicts, and the model adds none.

## Model

| member | source | states |
|---|---|---|
| Models.SortLabel | frontend/src/business/models.ts:17-21 | the sort option label is "Created" exactly for `created_at` and "Modified" exactly for `updated_at` |
| Models.ParseAnyOpenNote | frontend/src/business/models.ts:33-60 | an open note validates iff it is a text note (txt, no todos), a todo note (todos, no txt) or the legacy form (id + txt, no type); the result keeps the id, text and todos of the input |
| Models.OpenNoteParseIdentity | frontend/src/business/models.ts:49-60 | every accepted form parses to a value that renders back to the very input: the schema returns its input unchanged |
| Codec.TextToTodos | frontend/src/business/misc.ts:25-34 | one unchecked todo per non-empty line after trimming every JavaScript whitespace and line-terminator character, in order, each with a fresh id and the current time; a single empty todo when there is no such line |
| Codec.TodosToText | frontend/src/business/misc.ts:36 | no todos give the empty text; when no item holds a newline, splitting the text at newlines gives back the items' texts in order |
| Codec.TodosTextRoundTrip | frontend/src/business/misc.ts:25-36 | turning todos with trimmed, non-empty, newline-free texts into text and back gives the same texts in the same order |
| Codec.NoteToPut | frontend/src/business/misc.ts:122-158 | id, timestamps, version and type are copied; a tombstone gives no payload and keeps `deleted_at`; a live note gives a payload and no `deleted_at` |
| Codec.LabelToPut | frontend/src/business/misc.ts:160-182 | the same envelope rule for labels, with type `label` |
| Codec.PutToNote | frontend/src/business/misc.ts:68-120 | fails exactly on a label put; otherwise the note is `synced` with `deleted_at = put.deleted_at ?? 0`; a missing payload gives empty content; an unparseable payload falls back to the raw text or a single unchecked todo |
| Codec.PutToLabel | frontend/src/business/misc.ts:38-66 | fails exactly on a non-label put; a missing `txt` gives an empty name and no hue, and an unparseable `txt` becomes the name itself with no hue |
| Codec.NoteRoundTrip | frontend/src/business/misc.ts:68-158 | for a live note and a faithful JSON codec, decoding the encoded put restores the note with state `synced` |
| Codec.LabelRoundTrip | frontend/src/business/misc.ts:38-66 | for a live label and a faithful JSON codec, decoding the encoded put restores the label with state `synced` |
| Codec.BlankTextGivesEmptyNote | frontend/src/business/misc.ts:184-189 | a live untitled todo note made from blank text counts as empty, so it is never uploaded |
| Codec.NotesIsEmpty | frontend/src/business/misc.ts:184-189 | a live untitled note with empty text, or with no todos or a single empty one; its meaning is stated by Codec.NotesIsEmptyMeansNoText |
| Codec.NotesIsEmptyMeansNoText | frontend/src/business/misc.ts:184-189 | a tombstone is never empty; a live untitled note is empty exactly when its text, or the joined text of its at most one todo, is empty |
| Merge.LcsFrom | frontend/src/util/merge.ts:25-40 | the backward walk over the table yields a common subsequence of the prefixes whose length is the table entry |
| Merge.Lcs | frontend/src/util/merge.ts:9-41 | the result is a subsequence of both inputs with the length of the dynamic-programming optimum |
| Merge.LcsOptimal | frontend/src/util/merge.ts:15-23 | no common subsequence of two prefixes is longer than the table entry |
| Merge.LcsOfSubsequence | frontend/src/util/merge.ts:9-41 | when one input is a subsequence of the other, the LCS is that input |
| Merge.LcsSelf | frontend/src/util/merge.ts:9-41 | the LCS of an input with itself is the input |
| Merge.LcsTable | frontend/src/util/merge.ts:12-23 | the filled table holds the optimum length for every pair of prefixes |
| Merge.LcsWalk | frontend/src/util/merge.ts:25-40 | walking back from the corner of a correctly filled table, with the same tie-breaking, yields exactly the recursively defined reconstruction |
| Merge.LongestCommonSubsequence | frontend/src/util/merge.ts:9-41 | the loop-based computation returns a common subsequence, no common subsequence is longer, and it equals the recursive definition |
| Merge.Ancestor | frontend/src/util/merge.ts:52-57 | the lines given to diff3 as ancestor are the split base text, or with a null base an LCS of the local and server lines |
| Merge.ThreeWayMerge | frontend/src/util/merge.ts:47-68 | the merge of the two sides against the ancestor, rendered line by line; its properties are stated by Merge.TwoWayMerge, Merge.MergeIdentity, Merge.MergeOneSided and Merge.ConflictRendering |
| Merge.TwoWayMerge | frontend/src/util/merge.ts:43-45 | two-way merge is three-way merge with a null base and the arguments swapped |
| Merge.MergeIdentity | frontend/src/util/merge.ts:47-68 | if diff3 returns one ok block on equal inputs, merging a text with itself gives the text back, with or without a base |
| Merge.MergeOneSided | frontend/src/util/merge.ts:47-68 | if diff3 returns the changed side when only one side changed, the merge yields that side |
| Merge.TwoWayMergeInsertions | frontend/src/util/merge.ts:43-57 | when one side's lines are a subsequence of the other's, the two-way merge yields the longer side, given the same diff3 assumption |
| Merge.MergeRendering | frontend/src/util/merge.ts:47-68 | for any block list `diff3` returns whose lines hold no newline, the merged text splits back into exactly the flattened block lines: ok lines verbatim, each conflict wrapped in the LOCAL / ======= / SERVER markers, in block order (an empty block list gives the empty text) |
| Merge.ConflictRendering | frontend/src/util/merge.ts:59-67 | one worked instance of Merge.MergeRendering: an ok block, a conflict and an ok block render as the first ok lines, the local side between the LOCAL and ======= markers, the server side between ======= and SERVER, and the last ok lines |
| NoteMerge.TodoDeepEquals | frontend/src/business/misc.ts:254-255 | comparing two todos while ignoring `id` and `updated_at` is equality on `done` and `txt` |
| NoteMerge.TodosDeepEquals | frontend/src/business/misc.ts:254-255 | comparing two todo lists that way is pointwise equality of `done` and `txt` |
| NoteMerge.PickTodo | frontend/src/business/misc.ts:263-275 | an id present on both sides takes the strictly newer item, server on ties; an id on one side takes that item; an id on neither side is an error |
| NoteMerge.PickTodos | frontend/src/business/misc.ts:262-275 | the merged list follows the merged id order and picks item by item; it fails iff some id is on neither side |
| NoteMerge.MergedNote | frontend/src/business/misc.ts:277-288 | a merged note has the base's id and creation time, `deleted_at` 0, version max + 1, state `dirty`, and the title of the strictly newer side (server on ties) |
| NoteMerge.MergeTodoConflict | frontend/src/business/misc.ts:240-289 | no merge unless both sides are todo lists; null if a local or server item lacks id or stamp; equal lists ignoring ids and stamps give the local list; otherwise, with a fully stamped base, the per-id pick over the merged ids |
| NoteMerge.MergeNoteConflict | frontend/src/business/misc.ts:291-319 | identical texts merge as-is; otherwise the three-way merge against the base text, or null without a base text |
| NoteMerge.MergeNoteOneSided | frontend/src/business/misc.ts:291-319 | with a one-sided diff3, a conflict edited on one side only merges to that side's text |
| NoteMerge.MergeConflict | frontend/src/business/misc.ts:221-233 | a todo note goes to the todo merge, a text note to the text merge |
| NoteMerge.Outcome | frontend/src/business/misc.ts:195-216 | a missing base, a missing local copy, a type mismatch or a tombstone on either side is never merged |
| NoteMerge.MergeConflicts | frontend/src/business/misc.ts:191-219 | every server conflict lands in exactly one of merged and conflicts, and every conflict is either kept or has a merged note with its id; the unmergeable ones always land in conflicts |
| NoteMerge.SortOutcomes | frontend/src/business/misc.ts:191-219 | sorting the conflicts by a per-note outcome: the queued ones are exactly those whose outcome is "keep", every merged note is some conflict's outcome, every conflict is queued or merged, and a throwing outcome makes the whole sort throw |
| NoteMerge.MergeLabelConflicts | frontend/src/business/misc.ts:321-335 | fails iff some server label has no local copy; otherwise each merged label takes the strictly newer side with version max + 1, state `dirty` and `updated_at` max, and `created_at` comes from the side it takes |
| Editor.MoveItem | frontend/src/state/notes.ts:232-241 | moving an item keeps the multiset of items, and a valid move puts the source item at the target index |
| Editor.MoveItemPerm | frontend/src/state/notes.ts:232-241 | a valid move is removing index i, then inserting the removed item at j |
| Editor.TodoChecked | frontend/src/state/notes.ts:191-202 | without an open todo note or with a bad index nothing changes; otherwise only that todo's `done` and stamp and the note stamp change |
| Editor.TodoChanged | frontend/src/state/notes.ts:203-214 | the same guard; only that todo's text and stamp and the note stamp change |
| Editor.InsertTodo | frontend/src/state/notes.ts:215-225 | a fresh unchecked empty todo is inserted below the given index; no-op unless a todo note is open |
| Editor.DeleteTodo | frontend/src/state/notes.ts:226-231 | `splice(index, 1)` semantics: a non-negative index removes that todo and one past the end removes nothing; a negative index counts from the end, and one below `-length` removes the first todo; the title and every other field except content and `updated_at` are kept |
| Editor.MoveTodo | frontend/src/state/notes.ts:232-241 | the todos are permuted and the note stamp refreshed; no-op unless a todo note is open |
| Editor.TitleChanged | frontend/src/state/notes.ts:157-162 | only the title and the stamp change |
| Editor.TxtChanged | frontend/src/state/notes.ts:163-168 | only the text and the stamp change |
| Editor.TypeToggled | frontend/src/state/notes.ts:169-189 | the id and title are kept; todos become their joined texts, and text becomes todos of its non-blank lines |
| Editor.ToggledLines | frontend/src/state/notes.ts:169-189 | toggling text to todos keeps exactly the trimmed non-blank lines as texts |
| Editor.TypeToggleTwice | frontend/src/state/notes.ts:169-189 | toggling a todo note twice restores its texts, given trimmed non-empty single-line todos |
| Editor.HistoryRestored | frontend/src/state/notes.ts:242-257 | an undo or redo item replaces the content and refreshes the stamp; without an item or an open note nothing changes |
| Editor.FillTodoIds | frontend/src/state/notes.ts:103-111 | every todo gets an id and a stamp, existing ones are kept, and the rest of each todo is unchanged |
| Editor.NoteOpened | frontend/src/state/notes.ts:80-113 | a missing or tombstoned note opens nothing; otherwise the editor shows the stored note, with missing todo ids filled in |
| Editor.AddNote | frontend/src/state/notes.ts:135-156 | stores a new empty dirty version-1 note tagged with the active label and opens it |
| Editor.NextLocalVersion | frontend/src/state/notes.ts:497-512 | a dirty note keeps its version and a synced note's version goes up by one |
| Editor.StoreOpenNote | frontend/src/state/notes.ts:491-514 | writes the open note only when title, type or content differ, marking it dirty under the version rule; all other notes are untouched |
| Editor.EditorDiffersExactly | frontend/src/state/notes.ts:497-503 | the difference test, with deep equality on todos, holds exactly when the title or the content differs |
| Editor.DeleteOpenNote | frontend/src/state/notes.ts:266-284 | a dirty version-1 note is deleted outright; any other note becomes a dirty tombstone with empty text under the version rule; the editor closes |
| Editor.NoteClosed | frontend/src/state/notes.ts:114-134 | an empty untitled open note is deleted instead of stored; otherwise it is stored and the editor closes |
| Conflicts.PickLocalNote | frontend/src/state/conflicts.ts:15-31 | with an empty queue or no local copy nothing changes; otherwise the local note is stored with version max + 1 and state `dirty`, and only the head of the queue is dropped |
| Conflicts.ServerNote | frontend/src/state/conflicts.ts:39-60 | the stored note has the server put's id, stamps and version, state `synced`, `deleted_at ?? 0`, and text `txt ?? ''` or todos parsed from it (`[]` when null or unparseable) |
| Conflicts.PickServerNote | frontend/src/state/conflicts.ts:33-66 | with an empty queue nothing changes; otherwise the server note is stored and only the head of the queue is dropped |
| Conflicts.ServerPickOfQueuedNote | frontend/src/state/conflicts.ts:33-66 | picking the server side of a queued note (a Note held where a Put is expected) stores it synced, untitled and unlabelled, a todo note with an empty list, and keeps the rest of the queue |
| Sync.StartSync | frontend/src/state/notes.ts:299-317 | nothing happens without a key pair, when logged out, or while syncing; otherwise the upload holds exactly the dirty non-empty notes and the dirty labels |
| Sync.Decide | frontend/src/state/notes.ts:393-404 | the race rule keeps a local edit newer than the uploaded copy; a newer-or-equal local version with another stamp is kept; everything else is replaced |
| Sync.ApplyNote | frontend/src/state/notes.ts:397-404 | a kept race bumps the version by exactly one; a kept newer copy is untouched; a replaced record is the incoming one |
| Sync.ApplyLabel | frontend/src/state/notes.ts:376-383 | the same rule for labels |
| Sync.ApplyNotes | frontend/src/state/notes.ts:390-410 | ids absent locally are inserted, present ones follow the apply rule, and all others are untouched |
| Sync.ApplyLabels | frontend/src/state/notes.ts:367-386 | the same for the labels table |
| Sync.ApplyBaseVersions | frontend/src/state/notes.ts:405-411 | base versions are written exactly for inserted notes and for replaced notes whose incoming state is `synced`; no other base version changes |
| Sync.SetOpenNote | frontend/src/state/notes.ts:454-489 | no editor or an unrelated id changes nothing; an incoming tombstone closes the editor; a strictly newer note replaces the editor content; otherwise it is untouched |
| Sync.Purge | frontend/src/state/notes.ts:416-423 | exactly the synced tombstones are removed, from notes and from base versions |
| Sync.PutsToNotes | frontend/src/state/notes.ts:359-361 | each pulled note put is decoded in place |
| Sync.PutsToLabels | frontend/src/state/notes.ts:351-354 | each pulled label put is decoded in place |
| Sync.QueuedPut | frontend/src/state/notes.ts:426 | a note left in the conflict queue is read with its own id, type, stamps, version and text |
| Sync.PlanSync | frontend/src/state/notes.ts:333-365 | records are keyed by their own ids; the notes to store are exactly the pulled note puts plus the merged notes, a merged note winning over a pulled one with its id; every other stored note is the decoding of a pulled put; merged notes are dirty, live and have a conflict's id; merged plus queued notes account for every note conflict, and queued ones are synced; the labels to store are the pulled and the conflicting label puts, the conflicting ones dirty and the rest decoded from the pull; a label conflict without a local label aborts |
| Sync.PlanNotes | frontend/src/state/notes.ts:344-362 | the note half of the plan: notes keyed by their ids, exactly the pulled note puts plus the merged notes, the other stored notes decoded from the pull, merged notes dirty and live, queued ones synced, every note conflict merged or queued |
| Sync.PlanLabels | frontend/src/state/notes.ts:349-355 | the label half of the plan: exactly the pulled and conflicting label puts keyed by id, the conflicting ones dirty, the others decoded from the pull, and a conflict without a local label aborts |
| Sync.PulledStored | frontend/src/state/notes.ts:357-362 | a stored note that is not a merge result and is one of the notes decoded from the pull is the decoding of a pulled put at its position |
| Sync.PulledDecoded | frontend/src/state/notes.ts:358-360 | every note decoded from the pull is the decoding of one pulled put, with that put's fresh id |
| Sync.NotePlan | frontend/src/state/notes.ts:345-363 | the note table of the plan has exactly the pulled and merged ids, a merged note wins over a pulled one, and merged plus queued notes cover every note conflict |
| Sync.LabelConflictAborts | frontend/src/state/notes.ts:350 | a conflicting label with no local copy makes the plan fail |
| Sync.LabelKeys | frontend/src/state/notes.ts:350-356 | the label table of the plan has exactly the ids of the pulled and the conflicting label puts |
| Sync.LabelPrecedence | frontend/src/state/notes.ts:350-356 | an id among the conflicting labels maps to the dirty merged label; any other id maps to the decoded pulled label |
| Sync.ApplyPlan | frontend/src/state/notes.ts:367-412 | one transaction applies the plan to notes, labels and base versions as the apply rules say |
| Sync.FinishSync | frontend/src/state/notes.ts:299-452 | given the base versions of the conflicting notes as read from the store, a failed reply records the error and logs out on 401; a success applies the plan, purges synced tombstones, sets the cursor to `synced_to` and the queue to the unresolved conflicts; syncing always ends |
| Sync.MergedNoteLands | frontend/src/state/notes.ts:390-404 | a merge result whose version exceeds the uploaded note's lands in the store when the note was not edited during the round |
| Sync.RaceKeepsLocalEdit | frontend/src/state/notes.ts:397-401 | a local note edited after its upload keeps its content and goes up one version, whatever arrives |
| Sync.UntouchedTakesNewerVersion | frontend/src/state/notes.ts:393-404 | an untouched uploaded note is replaced by an incoming one with a higher version |
| Sync.ApplyVersionMonotone | frontend/src/state/notes.ts:393-404 | applying an incoming note never lowers the local version, except when an incoming note with the same update stamp replaces it |
| Labels.LabelsCache | frontend/src/state/labels.ts:13-20 | the cache maps each emitted label's id to a label with that id |
| Labels.CacheIsTable | frontend/src/state/labels.ts:13-20 | fed the full label table, the cache equals the table |
| Labels.CreateLabel | frontend/src/state/labels.ts:22-34 | adds a label with version 1, state `dirty`, `deleted_at` 0 and no hue; fails when the id is taken |
| Labels.UpdateLabel | frontend/src/state/labels.ts:36-50 | touches only a live label and only the given fields, marks it dirty, refreshes its stamp, keeps its version |
| Labels.Cascade | frontend/src/state/labels.ts:66-77 | only live notes carrying the label change: the label is removed and the note marked dirty under the version rule |
| Labels.DeleteLabel | frontend/src/state/labels.ts:52-78 | no-op for a missing or tombstoned label; a never-synced label is deleted outright and no note changes; otherwise it is tombstoned under the version rule and the cascade runs |
| Labels.UntagRemoves | frontend/src/state/labels.ts:71 | removing a label from a note drops that label and only that label |
| Labels.Untag | frontend/src/state/labels.ts:66-77 | the cascade's edit of one note: the label dropped, the note dirty under the version rule and touched; its effect on labels is stated by Labels.UntagRemoves |
| Labels.DeleteLabelCascade | frontend/src/state/labels.ts:66-77 | after deleting a synced label no live note carries it |
| NoteImport.ImportVersion | frontend/src/state/import.ts:102-106 | version 1 for a new note, unchanged for a dirty one, one more for a synced one |
| NoteImport.StampTodo | frontend/src/state/import.ts:108-112 | every imported todo gets an id and a stamp, keeping those it has |
| NoteImport.StampTodos | frontend/src/state/import.ts:108-112 | every todo of an imported list is stamped in place |
| NoteImport.ImportOne | frontend/src/state/import.ts:83-119 | an entry without text or todos is skipped; an applicable entry (no local note, a tombstone, or a strictly newer stamp) with todos or non-empty text is written dirty with `deleted_at` 0 |
| NoteImport.CollectImports | frontend/src/state/import.ts:82-120 | the collected notes are exactly the applied entries, compared against the store before the import |
| NoteImport.BulkPut | frontend/src/state/import.ts:121 | the written notes replace or add by id, and every other note is untouched |
| NoteImport.ImportNotes | frontend/src/state/import.ts:72-129 | no file does nothing; a parse failure records the error and changes no note; otherwise the collected notes are written once |
| NoteImport.CollectedWell | frontend/src/state/import.ts:93-118 | each collected note keeps the existing creation time, takes the later stamp, and has stamped todos |
| NoteImport.ImportedNotesWellFormed | frontend/src/state/import.ts:82-121 | every note an import writes is live, dirty and at the import version; new notes start at version 1; no note's stamp goes backwards |
| NoteImport.KeepToNote | frontend/src/state/import.ts:154-185 | a trashed or empty Keep note gives nothing; otherwise a dirty version-1 live note with the Keep title, text or checklist |
| NoteImport.CollectKeep | frontend/src/state/import.ts:142-186 | a note is collected exactly when some archive entry's path matches `Keep/<name>.json`, its contents parse as a Keep note, and the note maps to it (not trashed, not empty) with that entry's ids; every collected note is dirty, version 1 and live |
| NoteImport.KeepImportNotes | frontend/src/state/import.ts:131-200 | no file does nothing; an archive error is recorded; with no valid note nothing is written |
| NoteImport.AllTrashedImportsNothing | frontend/src/state/import.ts:154-156 | an archive holding only trashed notes imports nothing |
| User.SwitchLoginStatus | frontend/src/state/user.ts:117-121 | only the login dialog's status flips |
| User.SwitchLoginStatusTwice | frontend/src/state/user.ts:117-121 | switching the login dialog's status twice restores the state |
| User.OpenEncryptionKeyDialog | frontend/src/state/user.ts:128-143 | the dialog shows `key:token:checksum` of the held pair, or of a generated one, hidden |
| User.ResetForNewKey | frontend/src/state/user.ts:173-177 | tombstones are removed and every remaining note becomes dirty |
| User.SaveEncryptionKey | frontend/src/state/user.ts:164-186 | an invalid pair changes nothing; a new pair resets the notes, sets the cursor to 0 and stores the pair; the same pair only closes the dialog |
| User.SaveShownKey | frontend/src/state/user.ts:128-186 | saving the string the dialog shows only closes the dialog for the held pair; for a generated pair it installs that pair, resets the notes and sets the cursor to 0 |
| User.NewKeyUploadsEverything | frontend/src/state/user.ts:170-183 | after a new key every live note is dirty and the cursor is 0 |
| User.OpenDeleteServerNotesDialog | frontend/src/state/user.ts:188-221 | logged out nothing happens; otherwise the dialog opens and a 401 answer logs out |
| User.CloseDeleteServerNotesDialog | frontend/src/state/user.ts:223-231 | no-op while either loading flag is set |
| User.DeleteServerNotesAndGenerateNewKey | frontend/src/state/user.ts:238-280 | no-op without a code, while deleting, or logged out; a failure changes only the flags and logs out on 401; a success resets the notes, sets the cursor to 0 and installs the new pair |
| Store.Query | frontend/src/db.ts:53-57 | a query lists exactly the stored records satisfying its filter, each once |
| Store.DirtyNotes | frontend/src/db.ts:53-55 | the dirty-notes query yields exactly the notes with state `dirty` |
| Store.ListsIndex | frontend/src/db.ts:53-57 | indexing a query result by id gives back the stored records satisfying the filter |
| Store.UpgradeV2 | frontend/src/db.ts:14-25 | every note gets type `note` and nothing else changes |
| Store.UpgradeV3 | frontend/src/db.ts:27-38 | every note gets title `''` and nothing else changes |
| Store.UpgradeV4 | frontend/src/db.ts:40-47 | base versions are exactly the synced notes |
| Store.UpgradeV4Disjoint | frontend/src/db.ts:40-55 | no dirty note has a base version right after the upgrade |
| Encryption.EncryptSyncData | frontend/src/business/notesEncryption.ts:50-78 | count, order, ids and metadata of creates and updates are kept, each text is encrypted, and deletes pass through |
| Encryption.DecryptSyncData | frontend/src/business/notesEncryption.ts:30-48 | succeeds iff every create and update payload decrypts; each create keeps its id, `created_at` and `updated_at`, each update keeps its id, `updated_at` and `version`, each plain text is the decryption of its payload, and deletes pass through |
| Encryption.DecryptEncrypt | frontend/src/business/notesEncryption.ts:30-78 | with a cipher whose decryption inverts encryption, decrypting the encrypted sync data is the identity |
| Encryption.KeyPairStringSplit | frontend/src/state/user.ts:135-138 | splitting `key:token:checksum` at colons gives key, token and the checksum digits |
| Encryption.KeyPairStringValid | frontend/src/business/notesEncryption.ts:86-96 | for a 44-character base64 key and 24-character base64 token, the string is valid iff the checksum field equals the checksum of key and token |
| Encryption.CalcChecksum | frontend/src/business/notesEncryption.ts:80-84 | the checksum of the decoded key bytes followed by the decoded token bytes; used by Encryption.IsValidKeyTokenPair |
| Encryption.IsValidKeyTokenPair | frontend/src/business/notesEncryption.ts:86-96 | a key pair string is valid when its key and token are base64 of the right lengths and its checksum field is their checksum; characterised by Encryption.KeyPairStringValid |
| Misc.CompareNum | frontend/src/util/misc.ts:17 | -1, 0 or 1 exactly as the first number is smaller, equal or larger |
| Misc.CompareArrays | frontend/src/util/misc.ts:5-13 | the first differing element within the common prefix decides; equal prefixes fall through |
| Misc.ByProp | frontend/src/util/misc.ts:28-31 | the comparator of a numeric key, with the arguments swapped when descending |
| Misc.ByPropDescending | frontend/src/util/misc.ts:28-31 | descending order compares the arguments swapped, which is the ascending comparison negated |
| Misc.GetWordBounds | frontend/src/util/misc.ts:141-152 | on the text's UTF-16 code units: empty text gives 0, 0; otherwise the clamped position lies in the bounds, the span has no space, tab or newline, and both ends are maximal |
| Misc.SpliceString | frontend/src/util/misc.ts:153-154 | on UTF-16 code units, the result is the prefix before start, the inserted text, and the suffix from end, with slice's index rules |
| Misc.SpliceIdentity | frontend/src/util/misc.ts:153-154 | splicing a span back into itself gives the original string |
| Misc.TruncateWithEllipsis | frontend/src/util/misc.ts:236-251 | text within both limits is unchanged; otherwise the result is its first `maxLines` lines, cut to `maxChars` UTF-16 code units, followed by `...` |
| Misc.FirstLines | frontend/src/util/misc.ts:237-241 | the first lines of a text, joined back, are a prefix of the text |
| Misc.TruncateCanSplitPair | frontend/src/util/misc.ts:243-246 | the cut counts code units, so a one-character emoji cut at one unit keeps a lone high surrogate, and the result no longer decodes as UTF-16 |
| Misc.TruncateWithinLimits | frontend/src/util/misc.ts:236-251 | with at least one line allowed, the part before any `...` is a prefix of the text with at most `maxLines` lines and `maxChars` characters |
| Misc.SplitPrefixCount | frontend/src/util/misc.ts:237-245 | a prefix of a text never splits into more lines than the text |
| Misc.GetUniqueBy | frontend/src/util/misc.ts:89-104 | keys are distinct and cover every input key, each kept element is the first with its key, and input order is kept |
| Misc.FieldsEqualAll | frontend/src/util/misc.ts:230-233 | object comparison holds iff every key of the first compares equal with the same key of the second |
| Misc.DeepEquals | frontend/src/util/misc.ts:212-234 | deep equality of JSON values with ignored nested properties; its properties are stated by Misc.FieldsEqualAll, Misc.DeepEqualsTopLevel and Misc.DeepEqualsReflexive |
| Misc.DeepEqualsTopLevel | frontend/src/util/misc.ts:212-234 | at the top level non-objects compare with `===` whatever is ignored, and objects with different key counts are unequal |
| Misc.DeepEqualsReflexive | frontend/src/util/misc.ts:212-234 | every well-formed value is deeply equal to itself |
| Misc.FlightStep | frontend/src/util/misc.ts:253-276 | a call while running only sets pending; a resolving run with pending starts exactly one more run; a rejecting run goes idle and leaves pending as it was |
| Misc.FlightNoOverlap | frontend/src/util/misc.ts:253-276 | over any sequence of calls and finishes, at most one run is in progress |
| Misc.RejectedRunLeavesRequestPending | frontend/src/util/misc.ts:257-272 | a call during a run that rejects is not honoured then: nothing runs with pending set, and the request is served only after the next call's run resolves |
| Debounce.Step | frontend/src/util/debounceAsync.ts:12-38 | a call records the arguments and rearms the timer; a timer firing while idle starts one run with the latest arguments; while running it only sets pending; a resolving run with pending starts one trailing run; a rejecting run goes idle and leaves pending as it was |
| Debounce.AtMostOneExecution | frontend/src/util/debounceAsync.ts:12-23 | at most one execution is ever in progress |
| Debounce.BurstRunsLatest | frontend/src/util/debounceAsync.ts:25-37 | a burst of calls followed by the timer runs once, with the last call's arguments |
| Debounce.RejectedExecutionSkipsTrailing | frontend/src/util/debounceAsync.ts:12-22 | when the timer fires during a run that rejects, no trailing run starts and pending stays set |
| Undo.Reduce | frontend/src/util/undoHook.ts:29-72 | RESET starts a one-entry history; an equal value changes nothing; within the threshold the current entry is overwritten; otherwise the redo tail is dropped and the value appended |
| Undo.Observe | frontend/src/util/undoHook.ts:95-111 | a new key resets the history; a changed value becomes the current entry; the cursor stays in range |
| Undo.DoUndo | frontend/src/util/undoHook.ts:113-120 | no-op iff undo is not possible; otherwise the cursor moves back one and that entry is emitted |
| Undo.DoRedo | frontend/src/util/undoHook.ts:122-129 | no-op iff redo is not possible; otherwise the cursor moves forward one and that entry is emitted |
| Undo.CanUndo | frontend/src/util/undoHook.ts:131 | undo is possible past the first entry; Undo.DoUndo is a no-op exactly when it is not |
| Undo.CanRedo | frontend/src/util/undoHook.ts:132 | redo is possible before the last entry; Undo.DoRedo is a no-op exactly when it is not |
| Undo.RedoUndoes | frontend/src/util/undoHook.ts:113-129 | redo after undo restores the state and emits the entry that was current |
| Undo.HookRunValid | frontend/src/util/undoHook.ts:81-132 | the cursor stays within the history over any run of value changes, undos and redos |
| Undo.CursorStaysValid | frontend/src/util/undoHook.ts:87-93 | from the hook's initial state the cursor always stays within the history |
| Levenshtein.DistSymmetric | frontend/src/util/levenshtein.ts:12-16 | edit distance is symmetric, so swapping the shorter string first is harmless |
| Levenshtein.DistBounds | frontend/src/util/levenshtein.ts:5-94 | the distance lies between the length difference and the longer length |
| Levenshtein.DistZeroIffEqual | frontend/src/util/levenshtein.ts:8-10 | distance 0 exactly for equal strings |
| Levenshtein.CommonSuffix | frontend/src/util/levenshtein.ts:21-24 | a shared last character does not change the distance |
| Levenshtein.CommonPrefix | frontend/src/util/levenshtein.ts:28-30 | a shared first character does not change the distance |
| Levenshtein.ShortRemainder | frontend/src/util/levenshtein.ts:35-37 | after stripping, an empty shorter remainder gives the longer remainder's length |
| Levenshtein.StepMin | frontend/src/util/levenshtein.ts:1-3 | the cell update is the minimum of insert, delete and substitute costs |
| Levenshtein.StripSuffix | frontend/src/util/levenshtein.ts:21-24 | stripping the common suffix keeps the distance and stops at a differing pair |
| Levenshtein.StripPrefix | frontend/src/util/levenshtein.ts:26-33 | stripping the common prefix keeps the distance and stops at a differing pair |
| Levenshtein.Table | frontend/src/util/levenshtein.ts:53-93 | the row-vector sweep, four columns per pass while at least four remain and then one column per pass, returns the edit distance of the two code-unit sequences |
| Levenshtein.FourColumns | frontend/src/util/levenshtein.ts:62-81 | one pass of the four-column loop turns the row holding column `x` into the row holding column `x + 4`, and its last cell is the distance to the first `x + 4` code units |
| Levenshtein.OneColumn | frontend/src/util/levenshtein.ts:83-91 | one pass of the single-column loop turns the row holding column `x` into the row holding column `x + 1` |
| Levenshtein.CellStep | frontend/src/util/levenshtein.ts:71-74 | each `_min` call in the sweep, fed the left, diagonal and upper cells, yields the distance of the two prefixes ending at that cell |
| Levenshtein.Distance | frontend/src/util/levenshtein.ts:8-93 | the whole computation after case folding returns the edit distance of the two UTF-16 code-unit sequences |
| Levenshtein.Compute | frontend/src/util/levenshtein.ts:5-7 | case-sensitive mode measures the UTF-16 encodings of the inputs, the default those of their lowercased forms |
| Levenshtein.AstralCountsTwice | frontend/src/util/levenshtein.ts:21 | the comparison is per code unit, so one emoji against one letter is distance 2 |
| XSet.FromItr | frontend/src/util/XSet.ts:5-9 | the set is the image of the list under the map |
| XSet.Intersect | frontend/src/util/XSet.ts:18-24 | exactly the elements in both sets |
| XSet.Union | frontend/src/util/XSet.ts:26-31 | exactly the elements in either set |
| XSet.Without | frontend/src/util/XSet.ts:33-39 | exactly the elements of this set not in that one |
| XSet.IsSubset | frontend/src/util/XSet.ts:41-46 | true iff every element is in the superset |
| XSet.ToArray | frontend/src/util/XSet.ts:48-50 | lists each element exactly once |
| XSet.ToRecord | frontend/src/util/XSet.ts:52-56 | the keys are the elements' string forms, each mapped to true |
| Strings.Utf16RoundTrip | frontend/src/util/levenshtein.ts:21 | a string's UTF-16 encoding decodes back to it, so comparing code units, as `charCodeAt` does, loses nothing |
| Strings.Utf16Length | frontend/src/util/levenshtein.ts:18-19 | `length` is the number of characters plus one per character above U+FFFF, and a text without such characters has its code points as its code units |
| Strings.Trim | frontend/src/business/misc.ts:28 | `trim` as JavaScript defines it (sections 12.2 and 12.3 of ECMA-262): the result is the input after its leading whitespace, cut before its trailing whitespace, so it neither starts nor ends with whitespace and everything removed is whitespace |
| ServerSchema.NewUser | backend/src/db/schema.ts:3-12 | a new user has no codes, zero login tries and no sync token |
| ServerSchema.InsertedNote | backend/src/db/schema.ts:24-46 | an inserted note has version 1, both server stamps equal to the insertion time, and no deletion stamps |
| ServerSchema.UpdateNote | backend/src/db/schema.ts:35-39 | an update rewrites exactly the rows with the key and refreshes their update stamp |
| ServerSchema.UpdateUser | backend/src/db/schema.ts:3-12 | an update rewrites exactly the rows with the id and refreshes their update stamp |
| ServerSync.NewCreates | backend/src/endpoints/syncNotes.ts:137-138 | the creates whose id is not among the selected rows, in order |
| ServerSync.CreateUpdates | backend/src/endpoints/syncNotes.ts:152 | the creates whose id is among the selected rows |
| ServerSync.ApplyCreateUpdates | backend/src/endpoints/syncNotes.ts:152-164 | a re-sent create overwrites this user's row: content, client stamps and version + 1; other rows are untouched |
| ServerSync.ApplyUpdates | backend/src/endpoints/syncNotes.ts:167-173 | an update overwrites only cipher, iv and client update stamp of this user's row and keeps the version |
| ServerSync.ApplyDeletes | backend/src/endpoints/syncNotes.ts:175-187 | a delete nulls cipher and iv and sets both deletion stamps on this user's row |
| ServerSync.WriteCreates | backend/src/endpoints/syncNotes.ts:140-164 | fails iff two new creates share an id, the unique-key violation |
| ServerSync.WriteCreatesUnique | backend/src/endpoints/syncNotes.ts:140-149 | inserting the new creates keeps `(user_id, clientside_id)` unique |
| ServerSync.PushFromKeeps | backend/src/endpoints/syncNotes.ts:123-188 | a push never changes another user's rows and never removes rows |
| ServerSync.PushNotesAsWritten | backend/src/endpoints/syncNotes.ts:123-188 | the push as written: when every create's id exists anywhere it returns at once, skipping all updates and deletes |
| ServerSync.AnyExisting | backend/src/endpoints/syncNotes.ts:133-136 | the selected rows are every row, of any user, whose id is among the creates |
| ServerSync.OwnExisting | backend/src/endpoints/syncNotes.ts:133-137 | the corrected selection: this user's rows whose id is among the creates |
| ServerSync.PushNotes | backend/src/endpoints/syncNotes.ts:123-188 | the corrected push fails only on duplicate new ids and touches only this user's rows; every create has a row of this user, and one neither updated nor deleted holds the last create's cipher, iv and client created/updated stamps; an updated, not deleted row holds the last update's cipher, iv and client update stamp; a deleted row is nulled with both deletion stamps; inserted rows have version 1 and re-sent creates bump it by one |
| ServerSync.PushStoresCreates | backend/src/endpoints/syncNotes.ts:140-164 | after a push every create has a row for this user |
| ServerSync.WriteCreatesContent | backend/src/endpoints/syncNotes.ts:140-164 | after the corrected create step, every row of this user that a create names holds the last such create's cipher, iv and client stamps, whether inserted or overwritten |
| ServerSync.OverwrittenContent | backend/src/endpoints/syncNotes.ts:150-164 | a row already there is overwritten by the last create with its id |
| ServerSync.InsertedContent | backend/src/endpoints/syncNotes.ts:138-149 | an inserted row holds its create, which is the only create with that id |
| ServerSync.InsertedIsLast | backend/src/endpoints/syncNotes.ts:138-149 | when the new creates have distinct ids, each of them is the last create with its id |
| ServerSync.EmptyPush | backend/src/endpoints/syncNotes.ts:123-188 | a push with no creates, updates or deletes leaves the table as it was |
| ServerSync.SplitKeepsLast | backend/src/endpoints/syncNotes.ts:138-152 | the new creates and the create-updates each keep, for their ids, the last create with that id |
| ServerSync.PushVersions | backend/src/endpoints/syncNotes.ts:140-161 | inserted rows have version 1, re-sent creates bump the version by one, and other rows keep it |
| ServerSync.EarlyReturnSkipsDeletes | backend/src/endpoints/syncNotes.ts:139 | a re-sent create together with a delete: the code as written loses the delete, the corrected push applies it |
| ServerSync.CrossUserCreateDropped | backend/src/endpoints/syncNotes.ts:133-139 | a create whose id another user owns is dropped without a row for this user |
| ServerSync.CrossUserAsWritten | backend/src/endpoints/syncNotes.ts:133-149 | with one such create next to a new one, the push succeeds yet stores no row for the first |
| ServerSync.CrossUserSelection | backend/src/endpoints/syncNotes.ts:133-138 | with another user's row for the first id, the select of existing rows returns that row and only the second create counts as new |
| ServerSync.CrossUserCorrected | backend/src/endpoints/syncNotes.ts:133-149 | the corrected push stores a row for the first create too |
| ServerSync.MaxFrom | backend/src/endpoints/syncNotes.ts:119 | the cursor max is at least the old cursor and every stamp, and is one of them |
| ServerSync.SyncedTo | backend/src/endpoints/syncNotes.ts:59-121 | `synced_to` is at least the cursor and every selected stamp, and is the cursor or one of those stamps |
| ServerSync.GetPullData | backend/src/endpoints/syncNotes.ts:59-121 | creates, updates and deletes are exactly the user's rows changed after the cursor (updates without the pulled creates); `synced_to` is at least the cursor and every returned stamp, and is the cursor or one of them |
| ServerSync.PullDeliversEveryChange | backend/src/endpoints/syncNotes.ts:59-102 | every live row of the user created or updated after the cursor arrives as a create or an update |
| ServerSync.PullAgainFromSyncedTo | backend/src/endpoints/syncNotes.ts:59-121 | pulling again from `synced_to` returns no create or delete, and only updates of rows first pulled as creates |
| ServerSync.SyncNotes | backend/src/endpoints/syncNotes.ts:39-56 | the handler as written: with no stored token the client's is adopted; a different stored token fails with "Invalid sync token" before the push; otherwise the push as written, then the pull; a reply that breaks the output schema (a `synced_to` or stamp not positive) is an internal error; a push whose every create already exists changes no row |
| ServerSync.Handle | backend/src/endpoints/syncNotes.ts:39-56 | the token rule, then the pushed table, then the pull; the reply is the pull exactly when it meets the given output schema, and "Internal Server Error" otherwise; a failed push leaves the notes and replies with the thrown message |
| ServerSync.SyncNotesCorrected | backend/src/endpoints/syncNotes.ts:39-56 | the same handler over the corrected push and the corrected output schema: a reply with data means the table satisfies everything `PushNotes` promises, and its `synced_to` is at least the cursor and non-negative |
| ServerSync.PushesAgreeWithoutCreates | backend/src/endpoints/syncNotes.ts:123-188 | without creates the push as written and the corrected push agree |
| ServerSync.HandlersAgreeWithoutCreates | backend/src/endpoints/syncNotes.ts:39-188 | without creates both handlers leave the same database, and their replies are equal exactly unless the corrected one returns a pull with `synced_to` 0, which the handler as written turns into "Internal Server Error" |
| ServerSync.AdoptedTokenBinds | backend/src/endpoints/syncNotes.ts:49-53 | a token adopted on the first sync binds later ones: another token is then refused |
| ServerAuth.FirstUser | backend/src/endpoints/login.ts:40-43 | the lookup by e-mail finds the first row with that address, or none iff there is none |
| ServerAuth.CountEmail | backend/src/endpoints/login.ts:24-27 | the count is zero iff no row has the address |
| ServerAuth.NextUserId | backend/src/db/schema.ts:4 | the identity column gives an id above every existing one |
| ServerAuth.RegisterEmail | backend/src/endpoints/login.ts:19-30 | a bad captcha or an existing address is refused and inserts nothing; otherwise exactly one user is added |
| ServerAuth.RegisterKeepsUnique | backend/src/endpoints/login.ts:24-28 | registration keeps e-mails and ids unique, and registering the same address again is refused |
| ServerAuth.SendLoginCode | backend/src/endpoints/login.ts:39-63 | refuses an unknown user or a code less than ten minutes old; otherwise stores the new code with the current time and three tries |
| ServerAuth.LoginRefusal | backend/src/endpoints/login.ts:74-89 | refusals come in order: unknown user, no code, expired after ten minutes, no tries left |
| ServerAuth.LoginCode | backend/src/endpoints/login.ts:73-115 | a refusal changes nothing; a wrong code costs one try and makes no session; the right code clears the code, zeroes the tries and adds one session |
| ServerAuth.FirstUserStable | backend/src/endpoints/login.ts:53-60 | updates that keep addresses find the same user |
| ServerAuth.LoginSingleUse | backend/src/endpoints/login.ts:99-114 | after a successful login the same code is refused with "No login code set" |
| ServerAuth.WrongGuess | backend/src/endpoints/login.ts:91-97 | a wrong code lowers the tries by exactly one and leaves sessions alone |
| ServerAuth.SentPending | backend/src/endpoints/login.ts:53-60 | a sent code is pending with three tries |
| ServerAuth.GuessStep | backend/src/endpoints/login.ts:91-97 | a wrong guess on a pending code leaves it pending with one try less |
| ServerAuth.GuessesExhaustTries | backend/src/endpoints/login.ts:39-115 | three wrong guesses use up the code: even the right code is then refused with "No tries left" and no session exists |
| ServerAuth.SentCodeLogsIn | backend/src/endpoints/login.ts:39-115 | a code used within ten minutes logs in |
| ServerAuth.SendConfirmCode | backend/src/endpoints/sendConfirmCode.ts:14-29 | refused iff a code exists and is less than ten minutes old (exactly ten is allowed); a refusal changes nothing; success stores the code with the current time and three tries |
| ServerAuth.ConfirmRefusal | backend/src/endpoints/deleteNotes.ts:15-26 | refusals come in order: no code, no tries left, expired |
| ServerAuth.DeleteNotes | backend/src/endpoints/deleteNotes.ts:14-43 | a mismatch costs one try and deletes nothing; success removes exactly this user's notes, clears the token and the code, and touches no other user |
| ServerAuth.FilterNotOwned | backend/src/endpoints/deleteNotes.ts:35-36 | the kept notes are exactly the other users' notes |
| ServerAuth.ConfirmSingleUse | backend/src/endpoints/deleteNotes.ts:34-41 | after a wipe the confirm code is gone, so the wipe cannot be repeated with it |
| ServerAuth.WipeResetsSync | backend/src/endpoints/deleteNotes.ts:34-41 | after a wipe a pull from any cursor returns nothing with `synced_to` the cursor; the next sync as written succeeds exactly when the cursor is positive, and otherwise fails the output schema; the corrected handler returns the empty pull from any non-negative cursor |
| ServerAuth.EmptySync | backend/src/endpoints/syncNotes.ts:39-121 | for a user without rows and without a stored token, an empty sync succeeds with nothing to pull exactly when the cursor is positive, and otherwise fails the output schema |
| ServerAuth.EmptySyncCorrected | backend/src/endpoints/syncNotes.ts:33-43 | with the output bound on `synced_to` made the input's non-negative one, an empty sync by a user without rows returns the empty pull from every non-negative cursor, 0 included |
| ServerAuth.EmptyHandle | backend/src/endpoints/syncNotes.ts:39-56 | for a user without rows or token and an unchanged table, the reply is the empty pull from the cursor when the output schema accepts it, and "Internal Server Error" otherwise |
| ServerAuth.NoOwnedEmptyPull | backend/src/endpoints/syncNotes.ts:59-121 | a user without rows pulls no creates, updates or deletes, and `synced_to` stays the cursor |
| ServerCleanup.CleanupDb | backend/src/business/cleanup.ts:6-23 | sessions older than the lifetime go; notes go iff they are tombstones untouched for three months; live notes and users stay |
| ServerCleanup.CleanupLaterSubsumes | backend/src/business/cleanup.ts:6-23 | a later clean-up subsumes an earlier one, so running it twice at the same time is idempotent |
| ServerCleanup.CleanupKeepsInvariants | backend/src/business/cleanup.ts:12-20 | the clean-up keeps note keys unique and tombstones stamped |
| ServerMisc.GenerateLoginCode | backend/src/business/misc.ts:3-7 | the code is six decimal digits whose value is the drawn number, zero-padded |
| ServerMisc.LoginCodeInjective | backend/src/business/misc.ts:3-7 | distinct draws give distinct codes |
| ServerMisc.BisectBy | backend/src/util/misc.ts:1-12 | the parts are the order-preserving filters by the predicate and by its negation; together they are a permutation with lengths summing to the input |
| ServerMisc.BisectAll | backend/src/util/misc.ts:1-12 | an always-true predicate leaves the second part empty |
| ServerMisc.BisectNone | backend/src/util/misc.ts:1-12 | an always-false predicate leaves the first part empty |

## Left out

- I/O is left out: IndexedDB, SQL, the network, the socket, mail, hCaptcha,
  React, timers and the listeners. Each storage engine is an in-memory map
  or sequence, and a transaction is one function.
- Collaborators are abstract parameters:
  - the cipher, key generation, salts, token hashing and the checksum;
  - JSON and schema parsing (zod);
  - `diff3Merge` and `threeWayMergeArrays`;
  - lowercasing.
  The model assumes only what the callers rely on.
- Levenshtein.Compute lowercases with an abstract map from one character
  to one character, applied before encoding. JavaScript's `toLowerCase` can
  also turn one character into several (U+0130 becomes two), which this map
  cannot express.
- Merge.MergeIdentity, Merge.MergeOneSided and Merge.TwoWayMergeInsertions
  hold under stated assumptions about diff3's output, because diff3 is not
  part of this model.
- Codec.NoteRoundTrip and Codec.LabelRoundTrip assume a JSON codec whose
  parse inverts its stringify, because the schemas are abstract.
- Encryption.DecryptEncrypt assumes a cipher whose decryption inverts its
  encryption.
- Encryption.KeyPairStringValid models `Number(checksum)` on digit strings
  only; other numerals (signs, exponents, blanks) are not modelled.
- Floating point is not modelled. The Keep import's microsecond division is
  an abstract stamp conversion. `Math.max` over no stamps is folded from the
  cursor, which gives the same `synced_to`.
- Dialog flags, messages and UI state are kept only where an action's guard
  reads them.
- These actions are left out: sort and query changes, visibility toggles
  and the QR mode.
- Debounce.Step and Misc.FlightStep are event-step machines without time;
  the timing of the timers and the microtask interleaving are not modelled.
- ServerAuth.LoginCode takes the hashed session token and the session id as
  inputs; the hashing is not modelled.
- ServerAuth.RegisterEmail gives new users the next free id (one above the
  maximum), standing in for the identity column.
- ServerAuth.SendConfirmCode and ServerAuth.DeleteNotes read and write the
  confirm-code columns, which the `schema.ts` shown does not declare;
  `users` carries them in this model.
- ServerAuth.GuessesExhaustTries and ServerAuth.SentCodeLogsIn require a
  non-zero `now`, because the code's creation time is checked for
  truthiness.
- The session lifetime `SESSION_TTL_MIN` is an integer parameter of the
  clean-up.
- Request validation by the endpoint schemas is not modelled: input
  types, uuid formats and the non-negative cursor are taken as given. The
  sync handler's output validation is modelled, as a check that the reply's
  `synced_to`, stamps and versions are positive.
- Misc.FlightStep and Debounce.Step model a rejected run by its effect on
  the wrapper's variables; the unhandled rejection itself is not modelled.
- Editor.NoteClosed treats the store of the open note as finishing before
  the editor closes. In the program the store runs through `nonConcurrent`
  and is not awaited: when a store is already running, the call only sets
  `pending`, the editor closes, and the trailing run finds no open note and
  stores nothing, so edits made after the running store began are lost.
  That interleaving is not modelled.
- Undo.Observe folds the hook's `null` and `undefined` keys into `None`, so
  a key changing from one to the other does not reset the history here,
  as it does in the hook.

## Findings

| source | as written | input that shows it | evidently intended | confidence | as-written member | corrected member |
|---|---|---|---|---|---|---|
| backend/src/endpoints/syncNotes.ts:139 | when every create's id already exists, the transaction returns before the create-updates, updates and deletes | one user re-sends create `a` for the row it already has, and also sends a delete of `a` | only the insert is skipped; the comment at lines 150-151 says re-sent creates must still update, and updates and deletes are independent of creates | high, not executed | ServerSync.PushNotesAsWritten, ServerSync.SyncNotes (ServerSync.EarlyReturnSkipsDeletes) | ServerSync.PushNotes, ServerSync.SyncNotesCorrected |
| backend/src/endpoints/syncNotes.ts:133-137 | the existing-rows select filters by `clientside_id` only, not by user | user 2 owns `a`; user 1 pushes creates `a` and `b` | the select is scoped to the pushing user, as every update's `where` is | medium, not executed | ServerSync.PushNotesAsWritten, ServerSync.SyncNotes (ServerSync.CrossUserAsWritten, ServerSync.CrossUserCreateDropped) | ServerSync.PushNotes, ServerSync.SyncNotesCorrected (ServerSync.CrossUserCorrected) |
| backend/src/endpoints/syncNotes.ts:43 | the output schema demands a positive `synced_to`, while the input accepts `last_synced_to` 0 and an empty pull returns the cursor | a new or wiped account, with no rows, syncs from cursor 0, the cursor the client starts from and resets to (frontend/src/state/user.ts:49, 181, 273), although that client speaks the newer puts format | `synced_to` is non-negative, as `last_synced_to` is, so the empty first sync succeeds | medium, not executed | ServerSync.ValidPullData, ServerSync.SyncNotes (ServerAuth.EmptySync, ServerAuth.WipeResetsSync) | ServerSync.ValidPullDataCorrected, ServerSync.SyncNotesCorrected (ServerAuth.EmptySyncCorrected) |

In the second finding, user 1's create `a` is treated as existing, so no row
is inserted for it. The create-update is scoped by user and then matches
nothing, so user 1's note `a` never reaches the server.
