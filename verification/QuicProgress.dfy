/**
 Which calls over QUIC can still be completed.  The server may execute a call without
 sending a reply; nothing tells its caller, who waits for ever.  No other call that holds a
 stream is ever stuck.
 */
module QuicProgress {
  import opened Common
  import opened AssocList
  import opened RecordMarking
  import opened AtomicRpc
  import opened QuicRpc
  import opened QuicRpcProof

  /** The steps lead from one state to the other. */
  ghost predicate Leads(s: State, steps: seq<Step>, s': State)
    decreases |steps|
  {
    if steps == [] then s == s'
    else Enabled(s, steps[0]) && Leads(Apply(s, steps[0]), steps[1..], s')
  }

  predicate HoldsStream(s: State, id: Id) { id in s.rpcs && s.rpcs[id].phase.HoldsStream() }

  predicate IsDone(s: State, id: Id) { id in s.rpcs && s.rpcs[id].phase.Done? }

  /** The call was executed without a reply. */
  predicate Unanswered(a: Calls, id: Id) { id in a && a[id].Served? && a[id].reply.None? }

  ghost predicate CanBeCompleted(s: State, id: Id) {
    exists steps, s' :: Leads(s, steps, s') && IsDone(s', id)
  }

  // ------------------------------------------------------------- a call that goes on

  /** The reply the call will have, if `reply` is what the server answers to one not executed yet. */
  function Expected(a: Calls, id: Id, reply: Bytes): Option<Bytes>
    requires id in a
  {
    if a[id].Served? then a[id].reply else Some(reply)
  }

  function Remaining(c: Context, status: Status): nat {
    if c.finished then 2 else if status.Served? then 3 else if c.attempted then 4 else 5
  }

  /** How many steps of its own a call is away from its end. */
  function Distance(s: State, a: Calls, id: Id): nat
    requires id in s.rpcs && id in a
  {
    match s.rpcs[id].phase
    case Allocated(_) => 6
    case Registered(sid) =>
      (match ContextAt(s, Key(s.rpcs[id].conn, sid))
       case None => 0
       case Some(c) => Remaining(c, a[id]))
    case Releasing(_, _) => 1
    case _ => 0
  }

  /** The call is registered for the stream, with its context. */
  predicate Carries(s: State, key: Key, c: Context) {
    ContextAt(s, key) == Some(c) && c.id in s.rpcs && s.rpcs[c.id] == Rpc(key.conn, c.call, Registered(key.sid))
  }

  lemma RegisteredCarries(s: State, a: Calls, id: Id) returns (key: Key, c: Context)
    requires Simulates(s, a) && id in s.rpcs && s.rpcs[id].phase.Registered?
    ensures Carries(s, key, c) && c.id == id && id in a && key in s.up && key in s.down && key.conn in s.clients
    ensures Exchange(c, s.up[key], s.down[key], Lookup(s.server, key), a[id]) && ClientOk(s, key.conn)
  {
    assert RpcOk(s, a, id);
    key := Key(s.rpcs[id].conn, s.rpcs[id].phase.sid);
    c := ContextAt(s, key).value;
    ContextOwner(s, a, key);
  }

  /** The step brings a call that goes on holding its stream nearer to its end. */
  ghost predicate Moves(s: State, a: Calls, id: Id, reply: Bytes, step: Step, a': Calls) {
    && id in s.rpcs && id in a && id in a' && Enabled(s, step) && Simulates(Apply(s, step), a')
    && HoldsStream(Apply(s, step), id) && Distance(Apply(s, step), a', id) < Distance(s, a, id)
    && Expected(a', id, reply) == Expected(a, id, reply) && !Unanswered(a', id)
  }

  lemma Closer(s: State, a: Calls, s': State, a': Calls, key: Key, c: Context, c': Context)
    requires Carries(s, key, c) && Carries(s', key, c') && c.id == c'.id && c.id in a && c.id in a'
    requires Remaining(c', a'[c.id]) < Remaining(c, a[c.id])
    ensures HoldsStream(s', c.id) && Distance(s', a', c.id) < Distance(s, a, c.id)
  {
  }

  lemma AdvanceAllocated(s: State, a: Calls, id: Id, reply: Bytes)
    requires Simulates(s, a) && id in s.rpcs && s.rpcs[id].phase.Allocated?
    ensures Moves(s, a, id, reply, Register(id), a)
  {
    assert RpcOk(s, a, id);
    var rpc := s.rpcs[id];
    LookupAdd(Entry(rpc.phase.sid, NewContext(s, id)), s.clients[rpc.conn].contexts, rpc.phase.sid);
    StepRegister(s, a, id);
  }

  lemma AdvanceUnsent(s: State, a: Calls, key: Key, c: Context, reply: Bytes)
    requires Simulates(s, a) && Carries(s, key, c) && CanWrite(s, key) && c.id in a && a[c.id].Pending?
    requires !c.attempted && !c.finished
    ensures Moves(s, a, c.id, reply, Writable(key), a)
  {
    LookupReplace(s.clients[key.conn].contexts, key.sid, Written(c), key.sid);
    StepWrite(s, a, key);
    Closer(s, a, DoWrite(s, key), a, key, c, Written(c));
  }

  /** All that is still unread of a record completes it. */
  lemma RestCompletes(record: Bytes, rm: Rm, rest: Bytes)
    requires record != [] && rest != [] && HasRead(rm, Encode(record), rest)
    ensures Concat([rest]) + [] == rest && NonEmptyReads([rest])
    ensures Receive(rm, [rest]).code == 0 && Receive(rm, [rest]).rm.fullyReceived
  {
    var none: Bytes := [];
    assert Concat([rest]) + none == rest;
    EncodeCompletes(record);
    CompleteOnlyAtLastByte(Encode(record), record, rm, rest);
    ReceiveWithinRecord(Encode(record), record, rm, [rest], none);
  }

  lemma UnfinishedHasRest(c: Context, up: Bytes, down: Bytes, rm: Option<Rm>, status: Status)
    requires Exchange(c, up, down, rm, status) && status.Served? && status.reply.Some? && !c.finished
    ensures down != []
  {
    var r := status.reply.value;
    EncodeCompletes(r);
    CompleteOnlyAtLastByte(Encode(r), r, RmOf(c.rm), down);
  }

  /** All of the call that is still unread completes it, and the server executes it. */
  lemma AdvanceSent(s: State, a: Calls, key: Key, c: Context, reply: Bytes)
    requires Simulates(s, a) && Carries(s, key, c) && key in s.up && key in s.down && reply != []
    requires c.id in a && a[c.id] == Pending(c.call) && c.attempted && !c.finished && c.call != []
    requires Exchange(c, s.up[key], s.down[key], Lookup(s.server, key), a[c.id])
    ensures Moves(s, a, c.id, reply, ServerReadable(key, [s.up[key]], [], Some(reply)),
                  a[c.id := Served(c.call, Some(reply))])
  {
    var chunks, none: Bytes := [s.up[key]], [];
    RestCompletes(c.call, RmOf(Lookup(s.server, key)), s.up[key]);
    ServeRegistered(s, a, key, chunks, none, Some(reply));
    var s', a' := DoServe(s, key, chunks, none, Some(reply)), a[c.id := Served(c.call, Some(reply))];
    Closer(s, a, s', a', key, c, c);
  }

  /** All of the reply that is still unread completes it. */
  lemma AdvanceServed(s: State, a: Calls, key: Key, c: Context, reply: Bytes)
    requires Simulates(s, a) && Carries(s, key, c) && key.conn in s.clients && key in s.down && key in s.up
    requires c.id in a && a[c.id].Served? && a[c.id].reply.Some? && !c.finished
    requires Exchange(c, s.up[key], s.down[key], Lookup(s.server, key), a[c.id])
    ensures Moves(s, a, c.id, reply, ClientReadable(key, [s.down[key]], []), a)
  {
    var chunks, none: Bytes := [s.down[key]], [];
    UnfinishedHasRest(c, s.up[key], s.down[key], Lookup(s.server, key), a[c.id]);
    RestCompletes(a[c.id].reply.value, RmOf(c.rm), s.down[key]);
    var c' := AfterRead(c, Receive(RmOf(c.rm), chunks));
    LookupReplace(s.clients[key.conn].contexts, key.sid, c', key.sid);
    StepRead(s, a, key, chunks, none);
    Closer(s, a, DoRead(s, key, chunks, none), a, key, c, c');
  }

  lemma AdvanceFinished(s: State, a: Calls, key: Key, c: Context, reply: Bytes)
    requires Simulates(s, a) && Carries(s, key, c) && key.conn in s.clients && key in s.down && key in s.up
    requires c.id in a && Exchange(c, s.up[key], s.down[key], Lookup(s.server, key), a[c.id]) && c.finished
    ensures Moves(s, a, c.id, reply, Unregister(c.id), a)
  {
    FinishedHasReply(c, s.up[key], s.down[key], Lookup(s.server, key), a[c.id]);
    StepUnregister(s, a, c.id);
  }

  lemma AdvanceRegistered(s: State, a: Calls, id: Id, reply: Bytes) returns (step: Step, a': Calls)
    requires Simulates(s, a) && id in s.rpcs && s.rpcs[id].phase.Registered? && !Unanswered(a, id) && reply != []
    ensures Moves(s, a, id, reply, step, a')
  {
    var key, c := RegisteredCarries(s, a, id);
    assert RpcOk(s, a, id);
    a' := a;
    if c.finished {
      step := Unregister(id);
      AdvanceFinished(s, a, key, c, reply);
    } else if a[id].Served? {
      step := ClientReadable(key, [s.down[key]], []);
      AdvanceServed(s, a, key, c, reply);
    } else if c.attempted {
      step, a' := ServerReadable(key, [s.up[key]], [], Some(reply)), a[id := Served(c.call, Some(reply))];
      AdvanceSent(s, a, key, c, reply);
    } else {
      step := Writable(key);
      AdvanceUnsent(s, a, key, c, reply);
    }
  }

  /** A call that holds a stream and is not unanswered has a step that brings it nearer to its end. */
  lemma Advance(s: State, a: Calls, id: Id, reply: Bytes) returns (step: Step, a': Calls)
    requires Simulates(s, a) && HoldsStream(s, id) && !Unanswered(a, id) && reply != []
    ensures if s.rpcs[id].phase.Releasing?
            then Enabled(s, step) && id in a && id in Apply(s, step).rpcs
                 && Apply(s, step).rpcs[id].phase == Done(Expected(a, id, reply))
            else Moves(s, a, id, reply, step, a')
  {
    assert RpcOk(s, a, id);
    a' := a;
    match s.rpcs[id].phase
    case Allocated(_) =>
      step := Register(id);
      AdvanceAllocated(s, a, id, reply);
    case Registered(_) =>
      step, a' := AdvanceRegistered(s, a, id, reply);
    case Releasing(_, _) =>
      step := Release(id);
  }

  /** It is completed by at most six steps, with its reply. */
  lemma {:induction false} Complete(s: State, a: Calls, id: Id, reply: Bytes) returns (steps: seq<Step>, s': State)
    requires Simulates(s, a) && HoldsStream(s, id) && !Unanswered(a, id) && reply != []
    ensures id in a && Leads(s, steps, s') && |steps| <= Distance(s, a, id) <= 6
    ensures IsDone(s', id) && s'.rpcs[id].phase.result == Expected(a, id, reply)
    decreases Distance(s, a, id)
  {
    var step, a' := Advance(s, a, id, reply);
    var next := Apply(s, step);
    if s.rpcs[id].phase.Releasing? {
      steps, s' := [step], next;
      assert Leads(next, steps[1..], s');
    } else {
      var rest: seq<Step>;
      rest, s' := Complete(next, a', id, reply);
      steps := [step] + rest;
      assert steps[1..] == rest;
    }
  }

  // ------------------------------------------------------------- a call that is stuck

  lemma StuckStays(s: State, a: Calls, step: Step, id: Id) returns (a': Calls)
    requires Simulates(s, a) && Enabled(s, step)
    requires id in s.rpcs && s.rpcs[id].phase.Registered? && Unanswered(a, id)
    ensures Simulates(Apply(s, step), a') && Unanswered(a', id)
    ensures id in Apply(s, step).rpcs && Apply(s, step).rpcs[id].phase.Registered?
  {
    a' := StepSimulates(s, a, step);
    var key, c := RegisteredCarries(s, a, id);
    assert !c.finished;
    if step.Allocate? { AllocateRpcs(s, a, step.conn, step.choice); }
  }

  lemma {:induction false} StuckForever(s: State, a: Calls, steps: seq<Step>, s': State, id: Id)
    requires Simulates(s, a) && Leads(s, steps, s')
    requires id in s.rpcs && s.rpcs[id].phase.Registered? && Unanswered(a, id)
    ensures !IsDone(s', id)
    decreases |steps|
  {
    if steps != [] {
      var a' := StuckStays(s, a, steps[0], id);
      StuckForever(Apply(s, steps[0]), a', steps[1..], s', id);
    }
  }

  // ------------------------------------------------------------------- both together

  /** A call that holds a stream can be completed if and only if it was not executed without a reply. */
  lemma CompletableExactly(s: State, a: Calls, id: Id)
    requires Simulates(s, a) && HoldsStream(s, id)
    ensures CanBeCompleted(s, id) <==> !Unanswered(a, id)
  {
    if Unanswered(a, id) {
      assert RpcOk(s, a, id);
      forall steps, s' | Leads(s, steps, s') ensures !IsDone(s', id) {
        StuckForever(s, a, steps, s', id);
      }
    } else {
      var steps, s' := Complete(s, a, id, [0]);
    }
  }

  /**
   In every run, a call that holds a stream can be completed if every execution of such a call
   has been answered: by at most six steps, and with a reply.
   */
  lemma AnsweredCallsComplete(states: seq<State>, steps: seq<Step>, id: Id, reply: Bytes)
    returns (more: seq<Step>, s': State)
    requires IsQuicRun(states, steps) && HoldsStream(states[|steps|], id) && reply != []
    requires forall i :: 0 <= i < |steps| ==>
               Trace(states, steps)[i] != Execute(states[|steps|].rpcs[id].call, None)
    ensures Leads(states[|steps|], more, s') && |more| <= 6
    ensures IsDone(s', id) && s'.rpcs[id].phase.result.Some?
  {
    var calls := QuicRefinesAtomicRpc(states, steps);
    var s, a := states[|steps|], calls[|steps|];
    if Unanswered(a, id) {
      var i := UnansweredWasExecuted(states, steps, calls, id);
      assert false;
    }
    more, s' := Complete(s, a, id, reply);
  }

  lemma UnansweredWasExecuted(states: seq<State>, steps: seq<Step>, calls: seq<Calls>, id: Id) returns (i: nat)
    requires IsQuicRun(states, steps) && IsRun(calls, Trace(states, steps))
    requires Simulates(states[|steps|], calls[|steps|]) && HoldsStream(states[|steps|], id)
    requires Unanswered(calls[|steps|], id)
    ensures i < |steps| && Trace(states, steps)[i] == Execute(states[|steps|].rpcs[id].call, None)
  {
    var s, a := states[|steps|], calls[|steps|];
    assert RpcOk(s, a, id);
    var key, c := RegisteredCarries(s, a, id);
    var invoked, executed := RepliesAnswerOwnCalls(calls, Trace(states, steps));
    assert Explained(a, Trace(states, steps), invoked, executed, id);
    i := executed[id];
  }

  /** The call at the front of the queue can get a stream when one is free, or a new one below the limit. */
  lemma FrontCanBeServed(s: State, conn: Conn, choice: Choice)
    requires Reachable(s) && conn in s.clients && s.clients[conn].queue != []
    requires choice.Reuse? ==> InUse(s, Key(conn, choice.sid)) == Some(false)
    requires choice.Create? ==>
               |s.clients[conn].pool| < MAX_STREAMS_PER_CONNECTION && Key(conn, choice.sid) !in s.up
    ensures Enabled(s, Allocate(conn, choice))
    ensures var id := s.clients[conn].queue[0];
            && id in s.rpcs
            && (if choice.Fail? then Apply(s, Allocate(conn, choice)).rpcs[id].phase.AllocationFailed?
                else HoldsStream(Apply(s, Allocate(conn, choice)), id))
  {
    var a := ReachableSimulates(s);
    assert ClientOk(s, conn);
  }
}
