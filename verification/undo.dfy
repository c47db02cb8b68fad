/** The undo/redo history of a text field: a reducer over a list of past
    values with a cursor, edits closer together than a threshold merged into
    one entry, and the undo/redo guards of the hook. */
module Undo {
  import opened Common

  /** The key that identifies the edited record (`string | number`). The
      hook's `null` and `undefined` are both `None` here, although its `!==`
      comparison tells them apart: a key changing from one to the other
      resets the history there and not in this model. */
  datatype Key = StrKey(s: string) | NumKey(n: int)

  /** `prevKey` identifies the edited record; a new key resets the history. */
  datatype State = State(history: seq<string>, currentIndex: int, lastChangeTime: int,
                     prevKey: Option<Key>, prevValue: string)

  datatype Action =
    | Reset(externalValue: string, timestamp: int, key: Option<Key>)
    | SetValue(externalValue: string, chunkThreshold: int, timestamp: int)
    | UpdateIndex(index: int)

  /** The cursor points into the history. */
  predicate Valid(s: State) {
    0 <= s.currentIndex < |s.history|
  }

  /** `reducer`. The hook only dispatches on a state whose cursor is valid. */
  function Reduce(s: State, a: Action): (t: State)
    requires Valid(s)
    ensures a.Reset? ==> t == State([a.externalValue], 0, a.timestamp, a.key, a.externalValue)
    ensures a.SetValue? && s.history[s.currentIndex] == a.externalValue ==> t == s
    ensures a.SetValue? && s.history[s.currentIndex] != a.externalValue && a.timestamp - s.lastChangeTime < a.chunkThreshold ==>
      |t.history| == |s.history| && t.currentIndex == s.currentIndex &&
      t.history[t.currentIndex] == a.externalValue &&
      (forall i :: 0 <= i < |s.history| && i != s.currentIndex ==> t.history[i] == s.history[i]) &&
      t.lastChangeTime == a.timestamp && t.prevValue == a.externalValue && t.prevKey == s.prevKey
    ensures a.SetValue? && s.history[s.currentIndex] != a.externalValue && a.timestamp - s.lastChangeTime >= a.chunkThreshold ==>
      t.history == s.history[..s.currentIndex + 1] + [a.externalValue] && t.currentIndex == s.currentIndex + 1 &&
      t.lastChangeTime == a.timestamp && t.prevValue == a.externalValue && t.prevKey == s.prevKey
    ensures a.UpdateIndex? ==> t == s.(currentIndex := a.index)
    ensures !a.UpdateIndex? ==> Valid(t)
  {
    match a
    case Reset(v, time, key) => State([v], 0, time, key, v)
    case SetValue(v, threshold, time) =>
      if s.history[s.currentIndex] == v then s
      else if time - s.lastChangeTime < threshold then
        s.(history := s.history[s.currentIndex := v], lastChangeTime := time, prevValue := v)
      else
        s.(history := s.history[..s.currentIndex + 1] + [v], currentIndex := s.currentIndex + 1,
           lastChangeTime := time, prevValue := v)
    case UpdateIndex(i) => s.(currentIndex := i)
  }

  /** The hook's effect on a new external value: a changed key resets the
      history, a changed value records it, anything else does nothing. */
  function Observe(s: State, value: string, key: Option<Key>, chunkThreshold: int, now: int): (t: State)
    requires Valid(s)
    ensures Valid(t)
    ensures s.prevKey != key ==> t.history == [value] && t.currentIndex == 0 && t.prevKey == key && t.prevValue == value
    ensures s.prevKey != key || value != s.prevValue ==> t.history[t.currentIndex] == value
    ensures s.prevKey == key && value != s.prevValue ==> (t == s <==> s.history[s.currentIndex] == value)
    ensures s.prevKey == key && value == s.prevValue ==> t == s
  {
    if s.prevKey != key then Reduce(s, Reset(value, now, key))
    else if value != s.prevValue then Reduce(s, SetValue(value, chunkThreshold, now))
    else s
  }

  function CanUndo(s: State): bool { s.currentIndex > 0 }

  function CanRedo(s: State): bool { s.currentIndex < |s.history| - 1 }

  /** The outcome of `undo` or `redo`: the new state and the value handed to
      the editor, if any. */
  datatype Moved = Moved(state: State, emitted: Option<string>)

  /** `undo`: at the first entry nothing happens; otherwise the cursor moves
      back and the entry there is emitted. */
  function DoUndo(s: State): (r: Moved)
    requires Valid(s)
    ensures Valid(r.state)
    ensures !CanUndo(s) <==> r == Moved(s, None)
    ensures CanUndo(s) ==>
      r.state == s.(currentIndex := s.currentIndex - 1) && r.emitted == Some(s.history[s.currentIndex - 1])
  {
    if s.currentIndex <= 0 then Moved(s, None)
    else
      var i := s.currentIndex - 1;
      Moved(Reduce(s, UpdateIndex(i)), Some(s.history[i]))
  }

  /** `redo`: at the last entry nothing happens; otherwise the cursor moves
      forward and the entry there is emitted. */
  function DoRedo(s: State): (r: Moved)
    requires Valid(s)
    ensures Valid(r.state)
    ensures !CanRedo(s) <==> r == Moved(s, None)
    ensures CanRedo(s) ==>
      r.state == s.(currentIndex := s.currentIndex + 1) && r.emitted == Some(s.history[s.currentIndex + 1])
  {
    if s.currentIndex >= |s.history| - 1 then Moved(s, None)
    else
      var i := s.currentIndex + 1;
      Moved(Reduce(s, UpdateIndex(i)), Some(s.history[i]))
  }

  /** An undo followed by a redo returns to the same state and emits the
      entry that was current before the undo. */
  lemma RedoUndoes(s: State)
    requires Valid(s) && CanUndo(s)
    ensures DoRedo(DoUndo(s).state).state == s
    ensures DoRedo(DoUndo(s).state).emitted == Some(s.history[s.currentIndex])
  {
    var u := DoUndo(s).state;
    assert CanRedo(u);
  }

  /** The next action the hook can take: observe a new value, undo, redo. */
  datatype HookEvent = Observed(value: string, key: Option<Key>, chunkThreshold: int, now: int) | Undone | Redone

  function HookStep(s: State, e: HookEvent): (t: State)
    requires Valid(s)
    ensures Valid(t)
  {
    match e
    case Observed(v, key, threshold, now) => Observe(s, v, key, threshold, now)
    case Undone => DoUndo(s).state
    case Redone => DoRedo(s).state
  }

  function HookRun(s: State, events: seq<HookEvent>): State
    requires Valid(s)
    decreases |events|
  {
    if |events| == 0 then s else HookRun(HookStep(s, events[0]), events[1..])
  }

  /** Starting from the hook's initial state, every state the hook reaches
      has its cursor inside the history, so `canUndo` and `canRedo` are
      exactly "not at the first entry" and "not at the last entry". */
  lemma {:induction false} CursorStaysValid(value: string, key: Option<Key>, now: int, events: seq<HookEvent>)
    ensures Valid(HookRun(State([value], 0, now, key, value), events))
  {
    var s0 := State([value], 0, now, key, value);
    HookRunValid(s0, events);
  }

  lemma {:induction false} HookRunValid(s: State, events: seq<HookEvent>)
    requires Valid(s)
    ensures Valid(HookRun(s, events))
    decreases |events|
  {
    if |events| > 0 {
      HookRunValid(HookStep(s, events[0]), events[1..]);
    }
  }
}
