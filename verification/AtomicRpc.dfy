/**
 The meaning of remote calls, independent of a transport: a call is invoked, the
 server executes it at most once, and what is returned to the invoker is the
 reply of that execution.  Nothing in a trace names the call that an execution
 serves, just as no transaction id is compared.
 */
module AtomicRpc {
  import opened Common

  type Id = nat

  datatype Event =
    | Internal
    | Invoke(id: Id, call: Bytes)
    | Execute(call: Bytes, reply: Option<Bytes>)
    | Return(id: Id, result: Option<Bytes>)

  datatype Status = Pending(call: Bytes) | Served(call: Bytes, reply: Option<Bytes>) | Completed

  type Calls = map<Id, Status>

  /** NULL is returned only for a call that was never executed. */
  predicate Next(a: Calls, e: Event, a': Calls) {
    match e
    case Internal => a' == a
    case Invoke(id, call) => id !in a && a' == a[id := Pending(call)]
    case Execute(call, reply) =>
      exists id :: id in a && a[id] == Pending(call) && a' == a[id := Served(call, reply)]
    case Return(id, result) =>
      && id in a && a' == a[id := Completed]
      && match result
         case None => a[id].Pending?
         case Some(_) => a[id].Served? && a[id].reply == result
  }

  ghost predicate IsRun(states: seq<Calls>, events: seq<Event>) {
    && |states| == |events| + 1
    && states[0] == map[]
    && forall i :: 0 <= i < |events| ==> Next(states[i], events[i], states[i + 1])
  }

  lemma ExtendRun(states: seq<Calls>, events: seq<Event>, e: Event, a: Calls)
    requires IsRun(states, events) && Next(states[|events|], e, a)
    ensures IsRun(states + [a], events + [e])
  {
    var states', events' := states + [a], events + [e];
    forall i | 0 <= i < |events'| ensures Next(states'[i], events'[i], states'[i + 1]) {
      if i < |events| {
        assert states'[i] == states[i] && states'[i + 1] == states[i + 1];
      }
    }
  }

  /** The call was invoked before its execution, with the bytes that were executed. */
  predicate ServedInOrder(events: seq<Event>, invoked: map<Id, nat>, executed: map<Id, nat>, id: Id) {
    && id in invoked && id in executed
    && invoked[id] < executed[id] < |events|
    && events[executed[id]].Execute?
    && events[invoked[id]] == Invoke(id, events[executed[id]].call)
  }

  ghost predicate ServesSomeCall(events: seq<Event>, executed: map<Id, nat>, i: nat)
    requires i < |events|
  {
    events[i].Execute? ==> exists id :: id in executed && executed[id] == i
  }

  /** A reply returned is that of the call's own execution; NULL means there was none. */
  predicate ReturnsOwnReply(events: seq<Event>, executed: map<Id, nat>, i: nat)
    requires i < |events|
  {
    events[i].Return? ==>
      match events[i].result
      case None => events[i].id !in executed
      case Some(_) =>
        var id := events[i].id;
        && id in executed && executed[id] < i
        && events[executed[id]].Execute? && events[executed[id]].reply == events[i].result
  }

  /** `executed` says which execution serves a call: no execution serves two. */
  ghost predicate Matching(events: seq<Event>, invoked: map<Id, nat>, executed: map<Id, nat>) {
    && (forall x, y :: x in executed && y in executed && x != y ==> executed[x] != executed[y])
    && (forall id :: id in executed ==> ServedInOrder(events, invoked, executed, id))
    && (forall i :: 0 <= i < |events| ==> ServesSomeCall(events, executed, i))
    && (forall i :: 0 <= i < |events| ==> ReturnsOwnReply(events, executed, i))
  }

  /** What a call's status says about the events so far. */
  predicate Explained(a: Calls, events: seq<Event>, invoked: map<Id, nat>, executed: map<Id, nat>, id: Id)
    requires id in a
  {
    && id in invoked && invoked[id] < |events|
    && match a[id]
       case Pending(call) => id !in executed && events[invoked[id]] == Invoke(id, call)
       case Served(call, reply) =>
         id in executed && executed[id] < |events| && events[executed[id]] == Execute(call, reply)
       case Completed => true
  }

  predicate ReturnedIsCompleted(a: Calls, events: seq<Event>, i: nat)
    requires i < |events|
  {
    events[i].Return? ==> events[i].id in a && a[events[i].id].Completed?
  }

  ghost predicate Explains(a: Calls, events: seq<Event>, invoked: map<Id, nat>, executed: map<Id, nat>) {
    && invoked.Keys == a.Keys && executed.Keys <= a.Keys
    && (forall id :: id in a ==> Explained(a, events, invoked, executed, id))
    && (forall i :: 0 <= i < |events| ==> ReturnedIsCompleted(a, events, i))
  }

  ghost predicate Matched(a: Calls, events: seq<Event>, invoked: map<Id, nat>, executed: map<Id, nat>) {
    Matching(events, invoked, executed) && Explains(a, events, invoked, executed)
  }

  /** More events leave what was matched matched. */
  lemma MatchInternal(a: Calls, e: Event, events: seq<Event>, invoked: map<Id, nat>, executed: map<Id, nat>)
    requires Matched(a, events, invoked, executed) && e.Internal?
    ensures Matched(a, events + [e], invoked, executed)
  {
    var events' := events + [e];
    forall i | 0 <= i < |events'|
      ensures ServesSomeCall(events', executed, i) && ReturnsOwnReply(events', executed, i)
              && ReturnedIsCompleted(a, events', i)
    {
      if i < |events| {
        assert ServesSomeCall(events, executed, i) && ReturnsOwnReply(events, executed, i)
               && ReturnedIsCompleted(a, events, i);
      }
    }
  }

  lemma MatchInvoke(a: Calls, id: Id, call: Bytes, events: seq<Event>, invoked: map<Id, nat>, executed: map<Id, nat>)
    requires Matched(a, events, invoked, executed) && id !in a
    ensures Matched(a[id := Pending(call)], events + [Invoke(id, call)], invoked[id := |events|], executed)
  {
    var events', a' := events + [Invoke(id, call)], a[id := Pending(call)];
    forall i | 0 <= i < |events'|
      ensures ServesSomeCall(events', executed, i) && ReturnsOwnReply(events', executed, i)
              && ReturnedIsCompleted(a', events', i)
    {
      if i < |events| {
        assert ServesSomeCall(events, executed, i) && ReturnsOwnReply(events, executed, i)
               && ReturnedIsCompleted(a, events, i);
      }
    }
  }

  lemma MatchExecute(a: Calls, id: Id, call: Bytes, reply: Option<Bytes>, events: seq<Event>,
                     invoked: map<Id, nat>, executed: map<Id, nat>)
    requires Matched(a, events, invoked, executed) && id in a && a[id] == Pending(call)
    ensures Matched(a[id := Served(call, reply)], events + [Execute(call, reply)], invoked, executed[id := |events|])
  {
    MatchingExecute(a, id, call, reply, events, invoked, executed);
    ExplainsExecute(a, id, call, reply, events, invoked, executed);
  }

  lemma ExplainsExecute(a: Calls, id: Id, call: Bytes, reply: Option<Bytes>, events: seq<Event>,
                        invoked: map<Id, nat>, executed: map<Id, nat>)
    requires Explains(a, events, invoked, executed) && id in a && a[id] == Pending(call)
    ensures Explains(a[id := Served(call, reply)], events + [Execute(call, reply)], invoked, executed[id := |events|])
  {
    var events', a' := events + [Execute(call, reply)], a[id := Served(call, reply)];
    assert a'.Keys == a.Keys;
    forall i | 0 <= i < |events'| ensures ReturnedIsCompleted(a', events', i) {
      if i < |events| { assert ReturnedIsCompleted(a, events, i); }
    }
  }

  lemma MatchingExecute(a: Calls, id: Id, call: Bytes, reply: Option<Bytes>, events: seq<Event>,
                        invoked: map<Id, nat>, executed: map<Id, nat>)
    requires Matched(a, events, invoked, executed) && id in a && a[id] == Pending(call)
    ensures Matching(events + [Execute(call, reply)], invoked, executed[id := |events|])
  {
    var n, events', executed' := |events|, events + [Execute(call, reply)], executed[id := |events|];
    assert Explained(a, events, invoked, executed, id);
    forall i | 0 <= i < |events'|
      ensures ServesSomeCall(events', executed', i) && ReturnsOwnReply(events', executed', i)
    {
      if i < n {
        assert ServesSomeCall(events, executed, i) && ReturnsOwnReply(events, executed, i)
               && ReturnedIsCompleted(a, events, i);
        if events[i].Execute? {
          var x :| x in executed && executed[x] == i;
          assert x in executed' && executed'[x] == i;
        }
      } else {
        assert id in executed' && executed'[id] == i;
      }
    }
    forall x | x in executed' ensures ServedInOrder(events', invoked, executed', x) {
      if x != id { assert ServedInOrder(events, invoked, executed, x); }
    }
    forall x, y | x in executed' && y in executed' && x != y ensures executed'[x] != executed'[y] {
      if x in executed { assert ServedInOrder(events, invoked, executed, x); }
      if y in executed { assert ServedInOrder(events, invoked, executed, y); }
    }
  }

  lemma MatchReturn(a: Calls, id: Id, result: Option<Bytes>, events: seq<Event>,
                    invoked: map<Id, nat>, executed: map<Id, nat>)
    requires Matched(a, events, invoked, executed) && Next(a, Return(id, result), a[id := Completed])
    ensures Matched(a[id := Completed], events + [Return(id, result)], invoked, executed)
  {
    var events', a' := events + [Return(id, result)], a[id := Completed];
    assert Explained(a, events, invoked, executed, id);
    forall i | 0 <= i < |events'|
      ensures ServesSomeCall(events', executed, i) && ReturnsOwnReply(events', executed, i)
              && ReturnedIsCompleted(a', events', i)
    {
      if i < |events| {
        assert ServesSomeCall(events, executed, i) && ReturnsOwnReply(events, executed, i)
               && ReturnedIsCompleted(a, events, i);
      }
    }
  }

  lemma MatchStep(a: Calls, e: Event, a': Calls, events: seq<Event>, invoked: map<Id, nat>, executed: map<Id, nat>)
    returns (invoked': map<Id, nat>, executed': map<Id, nat>)
    requires Matched(a, events, invoked, executed) && Next(a, e, a')
    ensures Matched(a', events + [e], invoked', executed')
  {
    invoked', executed' := invoked, executed;
    match e
    case Internal =>
      MatchInternal(a, e, events, invoked, executed);
    case Invoke(id, call) =>
      MatchInvoke(a, id, call, events, invoked, executed);
      invoked' := invoked[id := |events|];
    case Execute(call, reply) =>
      var id :| id in a && a[id] == Pending(call) && a' == a[id := Served(call, reply)];
      MatchExecute(a, id, call, reply, events, invoked, executed);
      executed' := executed[id := |events|];
    case Return(id, result) =>
      MatchReturn(a, id, result, events, invoked, executed);
  }

  /** In every trace each reply returned answers exactly the call it is returned for. */
  lemma {:induction false} RepliesAnswerOwnCalls(states: seq<Calls>, events: seq<Event>)
    returns (invoked: map<Id, nat>, executed: map<Id, nat>)
    requires IsRun(states, events)
    ensures Matched(states[|events|], events, invoked, executed)
    decreases |events|
  {
    var n := |events|;
    if n == 0 {
      invoked, executed := map[], map[];
    } else {
      var events', states' := events[..n - 1], states[..n];
      forall i | 0 <= i < n - 1 ensures Next(states'[i], events'[i], states'[i + 1]) {
        assert Next(states[i], events[i], states[i + 1]);
      }
      invoked, executed := RepliesAnswerOwnCalls(states', events');
      invoked, executed := MatchStep(states[n - 1], events[n - 1], states[n], events', invoked, executed);
      assert events' + [events[n - 1]] == events;
    }
  }
}
