/**
 Which calls over a shared TCP connection can still be completed.  An execution without a reply
 ends the server's thread, and the caller keeps the mutex: that call and all that were not
 executed before it wait for ever.
 */
module TcpProgress {
  import opened Common
  import opened RecordMarking
  import opened TcpRecordMarking
  import opened AtomicRpc
  import opened TcpRpc

  /** The steps lead from one state to the other. */
  ghost predicate Leads(s: State, steps: seq<Step>, s': State)
    decreases |steps|
  {
    if steps == [] then s == s'
    else Enabled(s, steps[0]) && Leads(Apply(s, steps[0]), steps[1..], s')
  }

  predicate IsDone(s: State, id: Id) { id in s.rpcs && s.rpcs[id].phase.Done? }

  /** The call was executed without a reply. */
  predicate Unanswered(a: Calls, id: Id) { id in a && a[id].Served? && a[id].reply.None? }

  ghost predicate CanBeCompleted(s: State, id: Id) {
    exists steps, s' :: Leads(s, steps, s') && IsDone(s', id)
  }

  /** While the server runs, every call it executed was answered. */
  ghost predicate Follows(s: State, a: Calls) {
    Simulates(s, a) && (s.serving ==> forall id :: id in a ==> !Unanswered(a, id))
  }

  lemma FollowsStep(s: State, a: Calls, step: Step) returns (a': Calls)
    requires Follows(s, a) && Enabled(s, step)
    ensures Next(a, EventOf(s, step), a') && Follows(Apply(s, step), a')
  {
    a' := StepSimulates(s, a, step);
    StepServing(s, a, step);
  }

  lemma {:induction false} RunFollows(states: seq<State>, steps: seq<Step>) returns (a: Calls)
    requires IsTcpRun(states, steps)
    ensures Follows(states[|steps|], a)
    decreases |steps|
  {
    var n := |steps|;
    if n == 0 {
      a := map[];
    } else {
      RunPrefix(states, steps, n - 1);
      a := RunFollows(states[..n], steps[..n - 1]);
      a := FollowsStep(states[n - 1], a, steps[n - 1]);
    }
  }

  // ------------------------------------------------------------- a call that goes on

  /** A call that can go on once it has the mutex. */
  predicate Completable(s: State, a: Calls, id: Id) {
    id in a && (if a[id].Pending? then s.serving else !Unanswered(a, id))
  }

  function Stage(s: State, a: Calls, id: Id): nat
    requires id in s.rpcs && id in a
  {
    match s.rpcs[id].phase
    case Waiting => 5
    case Locked => 4
    case Receiving(_) => if a[id].Served? then 2 else 3
    case Unlocked(_) => 1
    case Done => 0
  }

  /** The bytes of the exchange that are still under way. */
  function UnderWay(s: State): nat { |s.up| + |s.down| }

  predicate Nearer(s: State, a: Calls, s': State, a': Calls, id: Id) {
    && id in s.rpcs && id in a && id in s'.rpcs && id in a'
    && (Stage(s', a', id) < Stage(s, a, id) || (Stage(s', a', id) == Stage(s, a, id) && UnderWay(s') < UnderWay(s)))
  }

  /** The server receives what it asks for, or what there is of it. */
  lemma AdvanceServer(s: State, a: Calls, x: Id, reply: Bytes) returns (step: Step, a': Calls)
    requires Follows(s, a) && s.mutex == Some(x) && s.rpcs[x].phase.Receiving? && a[x].Pending?
    requires s.serving && reply != []
    ensures Advances(s, a, x, step, a')
  {
    assert RpcOk(s, a, x);
    ParseWithinRecord(s.rpcs[x].call, s.serverGot, s.up);
    WantedNothingExactlyAtEnd(None, s.serverGot);
    var n := Min(Wanted(s.serverGot), |s.up|);
    step := ServerReceive(n, Some(reply), true);
    a' := StepServe(s, a, n, Some(reply), true);
    StepServing(s, a, step);
  }

  /** The thread receives what it asks for, or unlocks the mutex when it has its reply. */
  lemma AdvanceClient(s: State, a: Calls, x: Id) returns (step: Step)
    requires Follows(s, a) && s.mutex == Some(x) && s.rpcs[x].phase.Receiving?
    requires a[x].Served? && a[x].reply.Some?
    ensures Advances(s, a, x, step, a)
  {
    assert RpcOk(s, a, x);
    var got := s.rpcs[x].phase.got;
    ParseWithinRecord(a[x].reply.value, got, s.down);
    WantedNothingExactlyAtEnd(None, got);
    if s.down == [] {
      step := Unlock(x);
      StepUnlock(s, a, x);
    } else {
      step := ClientReceive(x, Min(Wanted(got), |s.down|));
      StepReceive(s, a, x, step.n);
    }
  }

  /** The step brings `x` nearer to its end and leaves every other call as it is, and the server running. */
  ghost predicate Advances(s: State, a: Calls, x: Id, step: Step, a': Calls) {
    && Enabled(s, step) && Follows(Apply(s, step), a') && Apply(s, step).serving == s.serving
    && Nearer(s, a, Apply(s, step), a', x) && Completable(Apply(s, step), a', x)
    && (forall id :: id in s.rpcs && id != x ==>
          id in a && id in a' && a'[id] == a[id] && id in Apply(s, step).rpcs && Apply(s, step).rpcs[id] == s.rpcs[id])
  }

  /** A call that has the mutex, can take it, or has given it back, is not stuck. */
  lemma Advance(s: State, a: Calls, x: Id, reply: Bytes) returns (step: Step, a': Calls)
    requires Follows(s, a) && x in s.rpcs && !s.rpcs[x].phase.Done? && Completable(s, a, x) && reply != []
    requires s.rpcs[x].phase.Waiting? ==> s.mutex == None
    ensures Advances(s, a, x, step, a')
  {
    assert RpcOk(s, a, x);
    a' := a;
    match s.rpcs[x].phase
    case Waiting =>
      step := Lock(x);
      StepLock(s, a, x);
    case Locked =>
      step := Send(x);
      StepSend(s, a, x);
    case Receiving(_) =>
      if a[x].Pending? { step, a' := AdvanceServer(s, a, x, reply); } else { step := AdvanceClient(s, a, x); }
    case Unlocked(_) =>
      step, a' := Finish(x), a[x := Completed];
      StepFinish(s, a, x);
  }

  /** The holder of the mutex can go on, if a call that waits for it can. */
  lemma HolderCompletable(s: State, a: Calls, id: Id, x: Id)
    requires Follows(s, a) && id in s.rpcs && s.rpcs[id].phase.Waiting? && s.mutex == Some(x) && Completable(s, a, id)
    ensures x in s.rpcs && x != id && s.rpcs[x].phase.InCriticalSection() && x in a && Completable(s, a, x)
  {
    assert RpcOk(s, a, id) && RpcOk(s, a, x);
  }

  /** How far the holder is from giving the mutex back to a call that waits. */
  function Delay(s: State, a: Calls, id: Id): nat
    requires id in s.rpcs
  {
    if s.rpcs[id].phase.Waiting? && s.mutex.Some? && s.mutex.value in s.rpcs && s.mutex.value in a
    then Stage(s, a, s.mutex.value)
    else 0
  }

  lemma {:induction false} Complete(s: State, a: Calls, id: Id, reply: Bytes) returns (steps: seq<Step>, s': State)
    requires Follows(s, a) && id in s.rpcs && Completable(s, a, id) && reply != []
    ensures Leads(s, steps, s') && IsDone(s', id)
    decreases Stage(s, a, id), Delay(s, a, id), UnderWay(s)
  {
    if s.rpcs[id].phase.Done? {
      steps, s' := [], s;
    } else {
      var x := id;
      if s.rpcs[id].phase.Waiting? && s.mutex.Some? {
        x := s.mutex.value;
        HolderCompletable(s, a, id, x);
      }
      var step, a' := Advance(s, a, x, reply);
      assert RpcOk(s, a, x) && RpcOk(Apply(s, step), a', x);
      var rest: seq<Step>;
      rest, s' := Complete(Apply(s, step), a', id, reply);
      steps := [step] + rest;
      assert steps[1..] == rest;
    }
  }

  // ------------------------------------------------------------- a call that is stuck

  /** Nothing executes a call without a server, and nothing unlocks the mutex without a reply. */
  lemma StuckStays(s: State, a: Calls, step: Step, id: Id) returns (a': Calls)
    requires Follows(s, a) && Enabled(s, step) && id in a && !Completable(s, a, id)
    ensures Follows(Apply(s, step), a') && id in a' && !Completable(Apply(s, step), a', id)
  {
    a' := FollowsStep(s, a, step);
    assert RpcOk(s, a, id);
    StepServing(s, a, step);
  }

  lemma {:induction false} StuckForever(s: State, a: Calls, steps: seq<Step>, s': State, id: Id)
    requires Follows(s, a) && Leads(s, steps, s') && id in a && !Completable(s, a, id)
    ensures !IsDone(s', id)
    decreases |steps|
  {
    if steps != [] {
      var a' := StuckStays(s, a, steps[0], id);
      StuckForever(Apply(s, steps[0]), a', steps[1..], s', id);
    } else {
      assert RpcOk(s, a, id);
    }
  }

  // ------------------------------------------------------------------- both together

  /**
   A call that is not executed yet can be completed if and only if the server still serves the
   connection, and one that is executed if and only if it was answered.
   */
  lemma CompletableExactly(s: State, a: Calls, id: Id)
    requires Follows(s, a) && id in s.rpcs
    ensures id in a && (CanBeCompleted(s, id) <==> if a[id].Pending? then s.serving else !Unanswered(a, id))
  {
    if Completable(s, a, id) {
      var steps, s' := Complete(s, a, id, [0]);
    } else {
      forall steps, s' | Leads(s, steps, s') ensures !IsDone(s', id) {
        StuckForever(s, a, steps, s', id);
      }
    }
  }

  /** In every run whose executions were all answered and went on, every call can be completed. */
  lemma AnsweredCallsComplete(states: seq<State>, steps: seq<Step>, id: Id)
    requires IsTcpRun(states, steps) && id in states[|steps|].rpcs
    requires forall i :: 0 <= i < |steps| ==> ServesOn(states[i], steps[i])
    ensures CanBeCompleted(states[|steps|], id)
  {
    ServesUntilUnanswered(states, steps);
    var a := RunFollows(states, steps);
    CompletableExactly(states[|steps|], a, id);
  }

  /** In every run after a call that was not answered, no call that was not executed before is ever completed. */
  lemma NoneCompletesAfterUnanswered(states: seq<State>, steps: seq<Step>, i: nat, id: Id)
    requires IsTcpRun(states, steps) && i < |steps| && !ServesOn(states[i], steps[i])
    requires id in states[|steps|].rpcs && states[|steps|].rpcs[id].phase.Waiting?
    ensures !CanBeCompleted(states[|steps|], id)
  {
    ServesUntilUnanswered(states, steps);
    var a := RunFollows(states, steps);
    assert RpcOk(states[|steps|], a, id);
    CompletableExactly(states[|steps|], a, id);
  }
}
