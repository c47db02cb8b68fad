/** The periodic clean-up: expired sessions go, and so do tombstones nobody
    has touched for three months. Live notes are never removed. */
module ServerCleanup {
  import opened Common
  import opened ServerSchema

  /** Thirty-day months, in milliseconds. */
  const THREE_MONTHS: int := 1000 * 60 * 60 * 24 * 30 * 3

  /** A session survives unless it was created before the cutoff. */
  function SessionKept(cutoff: int): SessionRow -> bool {
    (s: SessionRow) => !(s.createdAt < cutoff)
  }

  /** A note survives unless it is a tombstone last changed before the cutoff. */
  function NoteKept(cutoff: int): NoteRow -> bool {
    (n: NoteRow) => !(n.clientsideDeletedAt.Some? && n.serversideUpdatedAt < cutoff)
  }

  /** `cleanupDb` at time `now`, with the configured session lifetime in
      minutes. */
  function CleanupDb(db: ServerDb, now: int, ttlMinutes: int): (r: ServerDb)
    ensures r.users == db.users
    ensures forall s :: s in r.sessions <==> s in db.sessions && s.createdAt >= now - 1000 * 60 * ttlMinutes
    ensures forall n :: n in r.notes <==>
      n in db.notes && (n.clientsideDeletedAt.None? || n.serversideUpdatedAt >= now - THREE_MONTHS)
    ensures forall n :: n in db.notes && n.clientsideDeletedAt.None? ==> n in r.notes
  {
    var sessions := Filter(db.sessions, SessionKept(now - 1000 * 60 * ttlMinutes));
    var notes := Filter(db.notes, NoteKept(now - THREE_MONTHS));
    forall s ensures s in sessions <==> s in db.sessions && s.createdAt >= now - 1000 * 60 * ttlMinutes {
      FilterMember(db.sessions, SessionKept(now - 1000 * 60 * ttlMinutes), s);
    }
    forall n ensures n in notes <==> n in db.notes && NoteKept(now - THREE_MONTHS)(n) {
      FilterMember(db.notes, NoteKept(now - THREE_MONTHS), n);
    }
    db.(sessions := sessions, notes := notes)
  }

  /** Filtering by `q` after filtering by a weaker `p` is filtering by `q`. */
  lemma {:induction false} FilterStronger<T>(s: seq<T>, p: T -> bool, q: T -> bool)
    requires forall x :: q(x) ==> p(x)
    ensures Filter(Filter(s, p), q) == Filter(s, q)
  {
    if |s| > 0 {
      FilterStronger(s[1..], p, q);
      if p(s[0]) {
        assert Filter(s, p) == [s[0]] + Filter(s[1..], p);
        FilterAppend([s[0]], Filter(s[1..], p), q);
        assert Filter([s[0]], q) == (if q(s[0]) then [s[0]] else []) by {
          assert [s[0]][1..] == [];
        }
      } else {
        assert Filter(s, p) == Filter(s[1..], p);
        assert Filter(s, q) == Filter(s[1..], q);
      }
    }
  }

  /** A later clean-up, with the same session lifetime, removes everything
      an earlier one did: running it after the earlier one gives the same
      tables as running it alone. With equal times this is idempotence. */
  lemma CleanupLaterSubsumes(db: ServerDb, t1: int, t2: int, ttlMinutes: int)
    requires t1 <= t2
    ensures CleanupDb(CleanupDb(db, t1, ttlMinutes), t2, ttlMinutes) == CleanupDb(db, t2, ttlMinutes)
  {
    FilterStronger(db.sessions, SessionKept(t1 - 1000 * 60 * ttlMinutes), SessionKept(t2 - 1000 * 60 * ttlMinutes));
    FilterStronger(db.notes, NoteKept(t1 - THREE_MONTHS), NoteKept(t2 - THREE_MONTHS));
  }

  /** Removing rows keeps the `(user_id, clientside_id)` key unique. */
  lemma {:induction false} FilterKeepsUnique(notes: seq<NoteRow>, p: NoteRow -> bool)
    requires NotesUnique(notes)
    ensures NotesUnique(Filter(notes, p))
  {
    if |notes| > 0 {
      var rest := Filter(notes[1..], p);
      assert NotesUnique(notes[1..]) by {
        forall i, j | 0 <= i < j < |notes[1..]| ensures NoteKey(notes[1..][i]) != NoteKey(notes[1..][j]) {
          assert notes[1..][i] == notes[i + 1] && notes[1..][j] == notes[j + 1];
        }
      }
      FilterKeepsUnique(notes[1..], p);
      forall k | 0 <= k < |rest| ensures NoteKey(rest[k]) != NoteKey(notes[0]) {
        assert rest[k] in notes[1..];
        var m :| 0 <= m < |notes[1..]| && notes[1..][m] == rest[k];
        assert notes[m + 1] == rest[k];
      }
      var r := Filter(notes, p);
      if p(notes[0]) {
        forall i, j | 0 <= i < j < |r| ensures NoteKey(r[i]) != NoteKey(r[j]) {
          assert r[j] == rest[j - 1];
          if i > 0 {
            assert r[i] == rest[i - 1];
          }
        }
      }
    }
  }

  /** The clean-up keeps the notes' key unique and every remaining
      tombstone stamped. */
  lemma CleanupKeepsInvariants(db: ServerDb, now: int, ttlMinutes: int)
    requires NotesUnique(db.notes) && TombstonesStamped(db.notes)
    ensures NotesUnique(CleanupDb(db, now, ttlMinutes).notes)
    ensures TombstonesStamped(CleanupDb(db, now, ttlMinutes).notes)
  {
    var r := CleanupDb(db, now, ttlMinutes);
    FilterKeepsUnique(db.notes, NoteKept(now - THREE_MONTHS));
    forall i | 0 <= i < |r.notes| && r.notes[i].serversideDeletedAt.Some?
      ensures r.notes[i].clientsideDeletedAt.Some?
    {
      assert r.notes[i] in db.notes;
      var k :| 0 <= k < |db.notes| && db.notes[k] == r.notes[i];
    }
  }
}
