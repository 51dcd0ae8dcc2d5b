/**
 binding.c, paravfs__on_read to paravfs__on_delete: a worker hands a call to the
 JavaScript thread and waits on the one semaphore of the VFS.
 */
module Handshake {
  import opened Common

  type Thread = nat

  // A call lives on the stack of its worker.  `status` starts as its initializer leaves it;
  // `written` is what the done callback of this call wrote there.
  datatype Phase = Queued | Running | Answered
  datatype VfsCall = VfsCall(phase: Phase, status: int, written: Option<int>)

  // What a worker went back to sqlite with.
  datatype Return = Return(t: Thread, status: int, written: Option<int>)

  datatype State = State(calls: map<Thread, VfsCall>, sem: nat, returned: seq<Return>)

  const IDLE: State := State(map[], 0, [])

  datatype Step =
    | Enter(t: Thread, initial: int)  // js_call_threadsafe_function, then uv_sem_wait
    | Start(t: Thread)                // paravfs__on_*_call runs the callback
    | Done(t: Thread, verdict: int)   // paravfs__on_*_done: write the status, then uv_sem_post
    | Wake(t: Thread)                 // uv_sem_wait returns, and data.status is returned

  /** One step, with at most `limit` calls in flight; a step that is not enabled does nothing. */
  function Next(limit: nat, s: State, step: Step): State {
    match step
    case Enter(t, initial) =>
      if t in s.calls || |s.calls| >= limit then s
      else s.(calls := s.calls[t := VfsCall(Queued, initial, None)])
    case Start(t) =>
      if t in s.calls && s.calls[t].phase == Queued then s.(calls := s.calls[t := s.calls[t].(phase := Running)]) else s
    case Done(t, verdict) =>
      if t in s.calls && s.calls[t].phase == Running then
        s.(calls := s.calls[t := VfsCall(Answered, verdict, Some(verdict))], sem := s.sem + 1)
      else s
    case Wake(t) =>
      // Any waiting worker may be the one that the post wakes.
      if t in s.calls && s.sem > 0 then
        State(s.calls - {t}, s.sem - 1, s.returned + [Return(t, s.calls[t].status, s.calls[t].written)])
      else s
  }

  function Run(limit: nat, steps: seq<Step>): State {
    if steps == [] then IDLE else Next(limit, Run(limit, steps[..|steps| - 1]), steps[|steps| - 1])
  }

  // Each worker returns what its own callback wrote, callbacks do not overlap, and no post piles up.
  ghost predicate Safe(s: State) {
    && s.sem <= 1
    && (forall i :: 0 <= i < |s.returned| ==> s.returned[i].written == Some(s.returned[i].status))
    && (forall t, u :: t in s.calls && u in s.calls && s.calls[t].phase == s.calls[u].phase == Running ==> t == u)
  }

  // With one call in flight the semaphore is up exactly when that call is answered.
  ghost predicate OneAtATime(s: State) {
    && (forall i :: 0 <= i < |s.returned| ==> s.returned[i].written == Some(s.returned[i].status))
    && (s.calls == map[] ==> s.sem == 0)
    && (forall t :: t in s.calls ==>
          && s.calls.Keys == {t}
          && s.sem == (if s.calls[t].phase == Answered then 1 else 0)
          && (s.calls[t].phase == Answered ==> s.calls[t].written == Some(s.calls[t].status)))
  }

  lemma NextKeepsOne(s: State, step: Step)
    requires OneAtATime(s)
    ensures OneAtATime(Next(1, s, step))
  {
    var n := Next(1, s, step);
    if step.t in s.calls {
      assert s.calls.Keys == {step.t};
      if step.Wake? && s.sem > 0 { assert n.calls == map[]; }
      if step.Start? || step.Done? { assert n.calls.Keys == {step.t}; }
    } else if step.Enter? && |s.calls| < 1 {
      assert s.calls == map[];
      assert n.calls.Keys == {step.t};
    }
  }

  lemma {:induction false} RunKeepsOne(limit: nat, steps: seq<Step>)
    requires limit <= 1
    ensures OneAtATime(Run(limit, steps))
  {
    if steps != [] {
      var s, step := Run(limit, steps[..|steps| - 1]), steps[|steps| - 1];
      RunKeepsOne(limit, steps[..|steps| - 1]);
      NextKeepsOne(s, step);
      if limit == 0 && step.Enter? { assert Next(0, s, step) == s; }
    }
  }

  lemma RunMore(limit: nat, steps: seq<Step>, step: Step)
    ensures Run(limit, steps + [step]) == Next(limit, Run(limit, steps), step)
  {
    assert (steps + [step])[..|steps + [step]| - 1] == steps;
  }

  // Two calls in flight: the first answer wakes the other worker, which reads its initializer.
  lemma TwoCallsMixUp(limit: nat) returns (steps: seq<Step>)
    requires limit >= 2
    ensures !Safe(Run(limit, steps))
  {
    var call := VfsCall(Queued, 0, None);
    RunMore(limit, [], Enter(0, 0));
    steps := [] + [Enter(0, 0)];
    assert Run(limit, steps) == State(map[0 := call], 0, []);
    RunMore(limit, steps, Enter(1, 0));
    steps := steps + [Enter(1, 0)];
    assert Run(limit, steps) == State(map[0 := call, 1 := call], 0, []);
    RunMore(limit, steps, Start(0));
    steps := steps + [Start(0)];
    RunMore(limit, steps, Done(0, 1));
    steps := steps + [Done(0, 1)];
    assert Run(limit, steps).calls[1] == call;
    RunMore(limit, steps, Wake(1));
    steps := steps + [Wake(1)];
    assert Run(limit, steps).returned[0].written == None;
  }

  /**
   The shared semaphore is safe for every interleaving of any number of workers exactly
   when at most one call is in flight, which the mutex of the one connection sees to.
   */
  lemma SafeExactlyForOneCall(limit: nat)
    ensures limit <= 1 <==> forall steps :: Safe(Run(limit, steps))
  {
    if limit <= 1 {
      forall steps ensures Safe(Run(limit, steps)) {
        RunKeepsOne(limit, steps);
      }
    } else {
      var steps := TwoCallsMixUp(limit);
    }
  }

  // The three steps, of which those that were taken before do nothing.
  lemma TakesHome(s: State, t: Thread, verdict: int)
    requires OneAtATime(s) && t in s.calls
    ensures var e := Next(1, Next(1, Next(1, s, Start(t)), Done(t, verdict)), Wake(t));
      var status := if s.calls[t].phase == Answered then s.calls[t].status else verdict;
      && e.calls == map[] && e.sem == 0 && e.returned == s.returned + [Return(t, status, Some(status))]
  {
    assert s.calls.Keys == {t};
  }

  /**
   From any state that a run with one call in flight reaches, its remaining steps take the
   call home with the status of its own callback, and leave the semaphore down.
   */
  lemma OneCallReturns(steps: seq<Step>, t: Thread, verdict: int)
    requires t in Run(1, steps).calls
    ensures var s, e := Run(1, steps), Run(1, steps + [Start(t), Done(t, verdict), Wake(t)]);
      var status := if s.calls[t].phase == Answered then s.calls[t].status else verdict;
      && e.calls == map[] && e.sem == 0 && e.returned == s.returned + [Return(t, status, Some(status))]
  {
    RunKeepsOne(1, steps);
    TakesHome(Run(1, steps), t, verdict);
    RunMore(1, steps, Start(t));
    RunMore(1, steps + [Start(t)], Done(t, verdict));
    RunMore(1, steps + [Start(t)] + [Done(t, verdict)], Wake(t));
    assert steps + [Start(t), Done(t, verdict), Wake(t)] == steps + [Start(t)] + [Done(t, verdict)] + [Wake(t)];
  }
}
