/** `debounceAsync` as an event-driven state machine: calls re-arm a timer,
    the timer starts an execution with the latest arguments unless one is
    running, and an execution that finishes starts one trailing execution
    if the timer fired meanwhile. Time itself is not modelled: the timer
    firing is an event. */
module Debounce {
  import opened Common

  /** The wrapper's variables, plus a log of the arguments each execution
      started with and a count of finished executions. */
  datatype Debouncer<A> = Debouncer(timerSet: bool, running: bool, pending: bool, lastArgs: Option<A>,
                                    started: seq<A>, finished: nat)

  /** A call with arguments, the armed timer firing, or the wrapped
      function's promise resolving or rejecting. */
  datatype Event<A> = Call(args: A) | TimerFires | Finish | Fail

  function Initial<A>(): Debouncer<A> {
    Debouncer(false, false, false, None, [], 0)
  }

  /** At most one execution is in progress, and there are arguments
      whenever the timer is armed or an execution runs. `pending` may be set
      with nothing running: an execution that rejects skips its check. */
  predicate Inv<A>(s: Debouncer<A>) {
    |s.started| == s.finished + (if s.running then 1 else 0) &&
    (s.timerSet || s.running ==> s.lastArgs.Some?)
  }

  /** `execute`: the function starts with the latest arguments. */
  function Execute<A>(s: Debouncer<A>): Debouncer<A>
    requires s.lastArgs.Some?
  {
    s.(running := true, started := s.started + [s.lastArgs.value])
  }

  function Step<A>(s: Debouncer<A>, e: Event<A>): (t: Debouncer<A>)
    requires Inv(s)
    ensures Inv(t)
    ensures e.Call? ==> t == s.(lastArgs := Some(e.args), timerSet := true)
    ensures e.TimerFires? && s.timerSet && !s.running ==>
      !t.timerSet && t.running && t.pending == s.pending && t.started == s.started + [s.lastArgs.value] && t.finished == s.finished
    ensures e.TimerFires? && s.timerSet && s.running ==> t == s.(timerSet := false, pending := true)
    ensures e.Finish? && s.running && s.pending ==>
      t.running && !t.pending && t.finished == s.finished + 1 && t.started == s.started + [s.lastArgs.value] &&
      t.timerSet == s.timerSet && t.lastArgs == s.lastArgs
    ensures e.Finish? && s.running && !s.pending ==> t == s.(running := false, finished := s.finished + 1)
    ensures e.Fail? && s.running ==> t == s.(running := false, finished := s.finished + 1)
    ensures (e.TimerFires? && !s.timerSet) || ((e.Finish? || e.Fail?) && !s.running) ==> t == s
  {
    match e
    case Call(args) => s.(lastArgs := Some(args), timerSet := true)
    case TimerFires =>
      if !s.timerSet then s
      else if !s.running then Execute(s.(timerSet := false))
      else s.(timerSet := false, pending := true)
    case Finish =>
      if !s.running then s
      else
        var done := s.(running := false, finished := s.finished + 1);
        if s.pending then Execute(done.(pending := false)) else done
    case Fail =>
      if !s.running then s else s.(running := false, finished := s.finished + 1)
  }

  function Run<A>(s: Debouncer<A>, events: seq<Event<A>>): Debouncer<A>
    requires Inv(s)
    decreases |events|
  {
    if |events| == 0 then s else Run(Step(s, events[0]), events[1..])
  }

  /** Along any sequence of events, at most one execution is in progress. */
  lemma {:induction false} AtMostOneExecution<A>(s: Debouncer<A>, events: seq<Event<A>>)
    requires Inv(s)
    ensures Inv(Run(s, events))
    ensures |Run(s, events).started| - Run(s, events).finished <= 1
    decreases |events|
  {
    if |events| > 0 {
      AtMostOneExecution(Step(s, events[0]), events[1..]);
    }
  }

  /** The arguments of the last call before the timer: a burst of calls
      while idle leads to a single execution with the latest arguments. */
  lemma {:induction false} BurstRunsLatest<A>(s: Debouncer<A>, calls: seq<A>)
    requires Inv(s) && !s.running && |calls| > 0
    ensures var t := Run(s, Map(calls, (a: A) => Call(a)) + [TimerFires]);
      t.started == s.started + [calls[|calls| - 1]] && t.running && !t.timerSet
    decreases |calls|
  {
    var evs := Map(calls, (a: A) => Call(a)) + [TimerFires];
    var rest := Map(calls[1..], (a: A) => Call(a)) + [TimerFires];
    assert evs[0] == Call(calls[0]);
    assert evs[1..] == rest;
    var s1 := Step(s, Call(calls[0]));
    assert Run(s, evs) == Run(s1, rest);
    if |calls| > 1 {
      BurstRunsLatest(s1, calls[1..]);
    } else {
      assert rest == [TimerFires];
      assert Run(s1, rest) == Run(Step(s1, TimerFires), []);
    }
  }

  /** If the timer fires during an execution that then rejects, no trailing
      execution starts: nothing runs, and `pending` stays set until some
      later execution resolves. */
  lemma RejectedExecutionSkipsTrailing<A>(a: A, b: A)
    ensures var t := Run(Initial(), [Call(a), TimerFires, Call(b), TimerFires, Fail]);
      !t.running && t.pending && t.started == [a] && t.finished == 1
  {
    var evs: seq<Event<A>> := [Call(a), TimerFires, Call(b), TimerFires, Fail];
    assert evs[1..] == [TimerFires, Call(b), TimerFires, Fail];
    assert evs[2..] == [Call(b), TimerFires, Fail];
    assert evs[3..] == [TimerFires, Fail];
    assert evs[4..] == [Fail];
    var s1 := Step(Initial(), Call(a));
    var s2 := Step(s1, TimerFires);
    var s3 := Step(s2, Call(b));
    var s4 := Step(s3, TimerFires);
    assert Run(Initial(), evs) == Run(s1, evs[1..]) == Run(s2, evs[2..]) == Run(s3, evs[3..]);
    assert Run(s3, evs[3..]) == Run(s4, evs[4..]) == Run(Step(s4, Fail), []);
  }
}
