/**
 Remote calls over one TCP connection shared by any number of threads: a mutex
 around sending the call and receiving the reply, and a server that serves one
 record after the other.  Bytes arrive in order, cut in any way.
 */
module TcpRpc {
  import opened Common
  import opened RecordMarking
  import opened TcpRecordMarking
  import opened AtomicRpc

  datatype Phase =
    | Waiting
    | Locked
    | Receiving(got: Bytes)
    | Unlocked(result: Option<Bytes>)
    | Done
  {
    predicate InCriticalSection() { Locked? || Receiving? }
  }

  datatype Rpc = Rpc(call: Bytes, phase: Phase)

  datatype State = State(
    rpcs: map<Id, Rpc>,
    mutex: Option<Id>,
    up: Bytes,        // sent by the client, not yet received by the server
    down: Bytes,      // sent by the server, not yet received by the client
    serverGot: Bytes, // received by the server of the record it is reading
    serving: bool)    // the server thread of this connection still runs

  const INIT := State(map[], None, [], [], [], true)

  datatype Step =
    | Begin(id: Id, call: Bytes)
    | Lock(id: Id)
    | Send(id: Id)
    | ServerReceive(n: nat, reply: Option<Bytes>, goesOn: bool)
    | ClientReceive(id: Id, n: nat)
    | Unlock(id: Id)
    | Finish(id: Id)

  predicate Enabled(s: State, step: Step) {
    match step
    case Begin(id, call) => id !in s.rpcs && call != []
    case Lock(id) => id in s.rpcs && s.rpcs[id].phase.Waiting? && s.mutex == None
    case Send(id) => id in s.rpcs && s.rpcs[id].phase.Locked?
    case ServerReceive(n, reply, _) =>
      // recv hands over no more than is asked for, which stays within the record
      s.serving && 0 < n <= |s.up| && n <= Wanted(s.serverGot) && reply != Some([])
    case ClientReceive(id, n) =>
      && id in s.rpcs && s.rpcs[id].phase.Receiving?
      && 0 < n <= |s.down| && n <= Wanted(s.rpcs[id].phase.got)
    case Unlock(id) =>
      id in s.rpcs && s.rpcs[id].phase.Receiving? && ParseRecord(None, s.rpcs[id].phase.got).Got?
    case Finish(id) => id in s.rpcs && s.rpcs[id].phase.Unlocked?
  }

  function SetPhase(s: State, id: Id, phase: Phase): State
    requires id in s.rpcs
  {
    s.(rpcs := s.rpcs[id := s.rpcs[id].(phase := phase)])
  }

  /** The server has more bytes of a record; a complete one is executed at once. */
  function DoServe(s: State, n: nat, reply: Option<Bytes>, goesOn: bool): State
    requires n <= |s.up|
  {
    var got := s.serverGot + s.up[..n];
    var p := ParseRecord(None, got);
    if p.Incomplete? then s.(up := s.up[n..], serverGot := got)
    else if p.buffer.None? then s.(up := s.up[n..], serverGot := p.rest, serving := false)
    else
      s.(up := s.up[n..], serverGot := p.rest,
         down := s.down + (if reply.Some? then Encode(reply.value) else []),
         // a call that cannot be answered, and some that are rejected, end the thread
         serving := reply.Some? && goesOn)
  }

  function Apply(s: State, step: Step): State
    requires Enabled(s, step)
  {
    match step
    case Begin(id, call) => s.(rpcs := s.rpcs[id := Rpc(call, Waiting)])
    case Lock(id) => SetPhase(s, id, Locked).(mutex := Some(id))
    case Send(id) => SetPhase(s, id, Receiving([])).(up := s.up + Encode(s.rpcs[id].call))
    case ServerReceive(n, reply, goesOn) => DoServe(s, n, reply, goesOn)
    case ClientReceive(id, n) =>
      SetPhase(s, id, Receiving(s.rpcs[id].phase.got + s.down[..n])).(down := s.down[n..])
    case Unlock(id) =>
      SetPhase(s, id, Unlocked(ParseRecord(None, s.rpcs[id].phase.got).buffer)).(mutex := None)
    case Finish(id) => SetPhase(s, id, Done)
  }

  function EventOf(s: State, step: Step): Event
    requires Enabled(s, step)
  {
    match step
    case Begin(id, call) => Invoke(id, call)
    case ServerReceive(n, reply, _) =>
      var p := ParseRecord(None, s.serverGot + s.up[..n]);
      if p.Got? && p.buffer.Some? then Execute(p.buffer.value, reply) else Internal
    case Finish(id) => Return(id, s.rpcs[id].phase.result)
    case _ => Internal
  }

  ghost predicate IsTcpRun(states: seq<State>, steps: seq<Step>) {
    && |states| == |steps| + 1
    && states[0] == INIT
    && forall i :: 0 <= i < |steps| ==> Enabled(states[i], steps[i]) && states[i + 1] == Apply(states[i], steps[i])
  }

  // --------------------------------------------------------------- the invariant

  /** The connection carries the exchange of the call inside the mutex, and nothing else. */
  predicate Connection(s: State, call: Bytes, phase: Phase, status: Status) {
    match phase
    case Locked => status == Pending(call) && s.up == s.down == s.serverGot == []
    case Receiving(got) =>
      (match status
       case Pending(c) => c == call && s.serverGot + s.up == Encode(call) && s.up != [] && s.down == got == []
       case Served(c, reply) =>
         && c == call && s.up == s.serverGot == [] && reply != Some([])
         && got + s.down == (if reply.Some? then Encode(reply.value) else [])
       case Completed => false)
    case _ => false
  }

  predicate RpcOk(s: State, a: Calls, id: Id)
    requires id in s.rpcs
  {
    var rpc := s.rpcs[id];
    && rpc.call != [] && id in a
    && (rpc.phase.InCriticalSection() <==> s.mutex == Some(id))
    && match rpc.phase
       case Waiting => a[id] == Pending(rpc.call)
       case Unlocked(result) => result.Some? && a[id] == Served(rpc.call, result)
       case Done => a[id] == Completed
       case _ => Connection(s, rpc.call, rpc.phase, a[id])
  }

  ghost predicate Simulates(s: State, a: Calls) {
    && a.Keys == s.rpcs.Keys
    && (s.mutex == None ==> s.up == s.down == s.serverGot == [])
    && (s.mutex.Some? ==> s.mutex.value in s.rpcs)
    && (forall id {:trigger RpcOk(s, a, id)} :: id in s.rpcs ==> RpcOk(s, a, id))
  }

  // ------------------------------------------------------------------- the steps

  /** All calls but `x` are as before, and stay out of the mutex. */
  lemma Assemble(s: State, a: Calls, s': State, a': Calls, x: Id)
    requires Simulates(s, a) && a'.Keys == s'.rpcs.Keys && s'.rpcs.Keys == s.rpcs.Keys + {x}
    requires forall id :: id in s.rpcs && id != x ==> s'.rpcs[id] == s.rpcs[id] && a'[id] == a[id]
    requires s.mutex == None || s.mutex == Some(x)
    requires s'.mutex == None || s'.mutex == Some(x)
    requires s'.mutex == None ==> s'.up == s'.down == s'.serverGot == []
    requires RpcOk(s', a', x)
    ensures Simulates(s', a')
  {
    forall id | id in s'.rpcs ensures RpcOk(s', a', id) {
      if id != x { assert RpcOk(s, a, id); }
    }
  }

  /** A call that is not in the mutex changes nothing of the connection. */
  lemma AssembleOutside(s: State, a: Calls, s': State, a': Calls, x: Id)
    requires Simulates(s, a) && a'.Keys == s'.rpcs.Keys && s'.rpcs.Keys == s.rpcs.Keys + {x}
    requires s' == s.(rpcs := s'.rpcs) && s.mutex != Some(x)
    requires forall id :: id in s.rpcs && id != x ==> s'.rpcs[id] == s.rpcs[id] && a'[id] == a[id]
    requires RpcOk(s', a', x)
    ensures Simulates(s', a')
  {
    forall id | id in s'.rpcs ensures RpcOk(s', a', id) {
      if id != x { assert RpcOk(s, a, id); }
    }
  }

  lemma StepServe(s: State, a: Calls, n: nat, reply: Option<Bytes>, goesOn: bool) returns (a': Calls)
    requires Simulates(s, a) && Enabled(s, ServerReceive(n, reply, goesOn))
    ensures Next(a, EventOf(s, ServerReceive(n, reply, goesOn)), a')
    ensures Simulates(DoServe(s, n, reply, goesOn), a')
    ensures s.mutex.Some? && s.mutex.value in s.rpcs
    ensures if n == |s.up| then a' == a[s.mutex.value := Served(s.rpcs[s.mutex.value].call, reply)]
            else a' == a && DoServe(s, n, reply, goesOn).down == s.down
  {
    var x, s' := s.mutex.value, DoServe(s, n, reply, goesOn);
    assert RpcOk(s, a, x);
    var call, got, left := s.rpcs[x].call, s.serverGot + s.up[..n], s.up[n..];
    assert a[x] == Pending(call);
    assert s.up == s.up[..n] + left;
    assert got + left == Encode(call);
    ParseWithinRecord(call, got, left);
    a' := if left == [] then a[x := Served(call, reply)] else a;
    if left == [] {
      assert [] + s'.down == s'.down;
    }
    assert RpcOk(s', a', x);
    Assemble(s, a, s', a', x);
  }

  lemma StepReceive(s: State, a: Calls, x: Id, n: nat)
    requires Simulates(s, a) && Enabled(s, ClientReceive(x, n))
    ensures Simulates(Apply(s, ClientReceive(x, n)), a)
  {
    var s', got := Apply(s, ClientReceive(x, n)), s.rpcs[x].phase.got;
    assert RpcOk(s, a, x);
    assert s.down == s.down[..n] + s.down[n..];
    assert (got + s.down[..n]) + s.down[n..] == got + s.down;
    assert RpcOk(s', a, x);
    Assemble(s, a, s', a, x);
  }

  lemma StepUnlock(s: State, a: Calls, x: Id)
    requires Simulates(s, a) && Enabled(s, Unlock(x))
    ensures Simulates(Apply(s, Unlock(x)), a)
  {
    var s', got := Apply(s, Unlock(x)), s.rpcs[x].phase.got;
    assert RpcOk(s, a, x);
    if a[x].Served? && a[x].reply.Some? {
      ParseWithinRecord(a[x].reply.value, got, s.down);
    }
    Assemble(s, a, s', a, x);
  }

  lemma StepSend(s: State, a: Calls, x: Id)
    requires Simulates(s, a) && Enabled(s, Send(x))
    ensures Simulates(Apply(s, Send(x)), a)
  {
    assert RpcOk(s, a, x);
    EncodeNonEmpty(s.rpcs[x].call);
    assert [] + ([] + Encode(s.rpcs[x].call)) == Encode(s.rpcs[x].call);
    Assemble(s, a, Apply(s, Send(x)), a, x);
  }

  lemma StepLock(s: State, a: Calls, x: Id)
    requires Simulates(s, a) && Enabled(s, Lock(x))
    ensures Simulates(Apply(s, Lock(x)), a)
  {
    assert RpcOk(s, a, x);
    Assemble(s, a, Apply(s, Lock(x)), a, x);
  }

  lemma StepFinish(s: State, a: Calls, x: Id)
    requires Simulates(s, a) && Enabled(s, Finish(x))
    ensures Next(a, EventOf(s, Finish(x)), a[x := Completed])
    ensures Simulates(Apply(s, Finish(x)), a[x := Completed])
  {
    assert RpcOk(s, a, x);
    AssembleOutside(s, a, Apply(s, Finish(x)), a[x := Completed], x);
  }

  lemma StepSimulates(s: State, a: Calls, step: Step) returns (a': Calls)
    requires Simulates(s, a) && Enabled(s, step)
    ensures Next(a, EventOf(s, step), a') && Simulates(Apply(s, step), a')
  {
    var s' := Apply(s, step);
    a' := a;
    match step
    case Begin(id, call) =>
      a' := a[id := Pending(call)];
      AssembleOutside(s, a, s', a', id);
    case Lock(id) => StepLock(s, a, id);
    case Send(id) => StepSend(s, a, id);
    case ServerReceive(n, reply, goesOn) => a' := StepServe(s, a, n, reply, goesOn);
    case ClientReceive(id, n) => StepReceive(s, a, id, n);
    case Unlock(id) => StepUnlock(s, a, id);
    case Finish(id) =>
      StepFinish(s, a, id);
      a' := a[id := Completed];
  }

  // ------------------------------------------------------------------- whole runs

  ghost function Trace(states: seq<State>, steps: seq<Step>): seq<Event>
    requires IsTcpRun(states, steps)
  {
    seq(|steps|, i requires 0 <= i < |steps| => EventOf(states[i], steps[i]))
  }

  lemma RunPrefix(states: seq<State>, steps: seq<Step>, n: nat)
    requires IsTcpRun(states, steps) && n <= |steps|
    ensures IsTcpRun(states[..n + 1], steps[..n])
    ensures Trace(states[..n + 1], steps[..n]) == Trace(states, steps)[..n]
  {
  }

  /** Every run over TCP is explained by a run of the same atomic calls as one over QUIC. */
  lemma {:induction false} TcpRefinesAtomicRpc(states: seq<State>, steps: seq<Step>) returns (calls: seq<Calls>)
    requires IsTcpRun(states, steps)
    ensures IsRun(calls, Trace(states, steps))
    ensures Simulates(states[|steps|], calls[|steps|])
    decreases |steps|
  {
    var n := |steps|;
    if n == 0 {
      calls := [map[]];
    } else {
      RunPrefix(states, steps, n - 1);
      var before := TcpRefinesAtomicRpc(states[..n], steps[..n - 1]);
      var a := StepSimulates(states[n - 1], before[n - 1], steps[n - 1]);
      var trace, e := Trace(states, steps), EventOf(states[n - 1], steps[n - 1]);
      ExtendRun(before, trace[..n - 1], e, a);
      assert trace[..n - 1] + [e] == trace;
      calls := before + [a];
    }
  }

  /** With any number of threads on one connection, every caller receives the reply to its own call. */
  lemma TcpRepliesAnswerOwnCalls(states: seq<State>, steps: seq<Step>)
    requires IsTcpRun(states, steps)
    ensures exists invoked, executed :: Matching(Trace(states, steps), invoked, executed)
  {
    var calls := TcpRefinesAtomicRpc(states, steps);
    var invoked, executed := RepliesAnswerOwnCalls(calls, Trace(states, steps));
  }

  // --------------------------------------------------------- how long there is a server

  /** The step does not execute a call, or answers it and goes on. */
  predicate ServesOn(s: State, step: Step)
    requires Enabled(s, step)
  {
    EventOf(s, step).Execute? ==> step.reply.Some? && step.goesOn
  }

  lemma StepServing(s: State, a: Calls, step: Step)
    requires Simulates(s, a) && Enabled(s, step)
    ensures Apply(s, step).serving <==> s.serving && ServesOn(s, step)
  {
    if step.ServerReceive? {
      var x := s.mutex.value;
      assert RpcOk(s, a, x);
      var call, got, left := s.rpcs[x].call, s.serverGot + s.up[..step.n], s.up[step.n..];
      assert s.up == s.up[..step.n] + left;
      assert got + left == Encode(call);
      ParseWithinRecord(call, got, left);
    }
  }

  /** In every run the server serves until the first call that it cannot answer or that ends its thread. */
  lemma {:induction false} ServesUntilUnanswered(states: seq<State>, steps: seq<Step>)
    requires IsTcpRun(states, steps)
    ensures states[|steps|].serving <==> forall i :: 0 <= i < |steps| ==> ServesOn(states[i], steps[i])
    decreases |steps|
  {
    var n := |steps|;
    if n > 0 {
      RunPrefix(states, steps, n - 1);
      ServesUntilUnanswered(states[..n], steps[..n - 1]);
      var calls := TcpRefinesAtomicRpc(states[..n], steps[..n - 1]);
      StepServing(states[n - 1], calls[n - 1], steps[n - 1]);
      assert forall i :: 0 <= i < n - 1 ==> states[..n][i] == states[i] && steps[..n - 1][i] == steps[i];
    }
  }
}
