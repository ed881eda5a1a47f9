/**
 The pool of auxiliary streams and the doubly linked queue of calls waiting for
 one, with the callback that serves the queue.
 */
module StreamAllocation {
  import opened Common
  import opened AssocList
  import opened AtomicRpc
  import opened QuicRpc

  type Pool = seq<Entry<StreamId, bool>>

  // --------------------------------------------------------------------- the pool

  function FirstFree(pool: Pool): (i: nat)
    ensures i <= |pool|
    ensures i < |pool| ==> !pool[i].value
    ensures forall j :: 0 <= j < i ==> pool[j].value
  {
    if pool == [] || !pool[0].value then 0 else 1 + FirstFree(pool[1..])
  }

  /** The number of streams in use. */
  function Busy(pool: Pool): (n: nat)
    ensures n <= |pool|
    ensures n == |pool| <==> FirstFree(pool) == |pool|
  {
    if pool == [] then 0 else (if pool[0].value then 1 else 0) + Busy(pool[1..])
  }

  /** The pool after one request, what it was given, and whether a new stream was asked for. */
  datatype Grant = Grant(pool: Pool, sid: Option<StreamId>, asked: bool)

  function GrantStream(pool: Pool, creation: Option<StreamId>): Grant {
    var i := FirstFree(pool);
    if i < |pool| then Grant(pool[i := Entry(pool[i].key, true)], Some(pool[i].key), false)
    else if |pool| == MAX_STREAMS_PER_CONNECTION then Grant(pool, None, false)
    else if creation.None? then Grant(pool, None, true)
    else Grant([Entry(creation.value, true)] + pool, creation, true)
  }

  lemma {:induction false} BusyUpdate(pool: Pool, i: nat)
    requires i < |pool| && !pool[i].value
    ensures Busy(pool[i := Entry(pool[i].key, true)]) == Busy(pool) + 1
  {
    var pool' := pool[i := Entry(pool[i].key, true)];
    if i == 0 {
      assert pool'[1..] == pool[1..];
    } else {
      BusyUpdate(pool[1..], i - 1);
      assert pool'[1..] == pool[1..][i - 1 := Entry(pool[i].key, true)];
    }
  }

  /** A request is granted, when creation works, exactly while fewer than the limit are in use. */
  lemma GrantCounts(pool: Pool, creation: Option<StreamId>)
    requires |pool| <= MAX_STREAMS_PER_CONNECTION
    ensures var g := GrantStream(pool, creation);
            && |g.pool| <= MAX_STREAMS_PER_CONNECTION
            && Busy(g.pool) == Busy(pool) + (if g.sid.Some? then 1 else 0)
            && (creation.Some? ==> (g.sid.Some? <==> Busy(pool) < MAX_STREAMS_PER_CONNECTION))
  {
    var i := FirstFree(pool);
    if i < |pool| {
      BusyUpdate(pool, i);
    } else if creation.Some? {
      assert ([Entry(creation.value, true)] + pool)[1..] == pool;
    }
  }

  /**
   A stream is asked for only when all are in use and there are not as many as the limit; a free one
   is given out otherwise, the first of the pool, and the others are left as they are.
   */
  lemma GrantExactly(pool: Pool, creation: Option<StreamId>, i: nat)
    ensures var g := GrantStream(pool, creation);
            && (g.asked <==> Busy(pool) == |pool| && |pool| != MAX_STREAMS_PER_CONNECTION)
            && (Busy(pool) == |pool| ==>
                  g.sid == (if g.asked then creation else None)
                  && g.pool == (if g.sid.Some? then [Entry(g.sid.value, true)] + pool else pool))
            && (i < |pool| && !pool[i].value && (forall j :: 0 <= j < i ==> pool[j].value) ==>
                  g.sid == Some(pool[i].key) && g.pool == pool[i := Entry(pool[i].key, true)])
  {
    if i < |pool| && !pool[i].value && (forall j :: 0 <= j < i ==> pool[j].value) {
      assert FirstFree(pool) == i;
    }
  }

  /** What the walk decides is one of the choices of the protocol. */
  lemma GrantIsChoice(pool: Pool, creation: Option<StreamId>) returns (choice: Choice)
    requires Distinct(pool)
    ensures CanChoose(pool, choice)
    ensures var g := GrantStream(pool, creation);
            && g.pool == Choose(pool, choice)
            && g.sid == (if choice.Fail? then None else Some(choice.sid))
            && (choice.Create? ==> g.asked && creation == Some(choice.sid))
  {
    var i := FirstFree(pool);
    var g := GrantStream(pool, creation);
    if i < |pool| {
      choice := Reuse(pool[i].key);
      PositionOfEntry(pool, i);
      AtPosition(pool, pool[i].key, true);
    } else if g.sid.Some? {
      choice := Create(creation.value);
    } else {
      choice := Fail;
    }
  }

  lemma PositionOfEntry<K, V>(xs: seq<Entry<K, V>>, i: nat)
    requires Distinct(xs) && i < |xs|
    ensures Position(xs, xs[i].key) == i
  {
    var p := Position(xs, xs[i].key);
    if p < i { DistinctKeys(xs, p, i); }
  }

  // ------------------------------------------------------------- serving the queue

  datatype Service = Service(pool: Pool, grants: seq<Option<StreamId>>, creations: seq<Option<StreamId>>)

  function NextCreation(creations: seq<Option<StreamId>>): Option<StreamId> {
    if creations == [] then None else creations[0]
  }

  function AfterGrant(g: Grant, creations: seq<Option<StreamId>>): seq<Option<StreamId>> {
    if g.asked && creations != [] then creations[1..] else creations
  }

  /** `n` requests in a row; each attempt to create a stream uses the next of `creations`. */
  function ServeAll(pool: Pool, n: nat, creations: seq<Option<StreamId>>): Service
    decreases n
  {
    if n == 0 then Service(pool, [], creations)
    else
      var g := GrantStream(pool, NextCreation(creations));
      var rest := ServeAll(g.pool, n - 1, AfterGrant(g, creations));
      rest.(grants := [g.sid] + rest.grants)
  }

  /** When streams can be created, those served are the first in the queue, as many as the limit allows. */
  lemma {:induction false} FirstInQueueAreServed(pool: Pool, n: nat, creations: seq<Option<StreamId>>)
    requires |pool| <= MAX_STREAMS_PER_CONNECTION
    requires n <= |creations| && forall i :: 0 <= i < |creations| ==> creations[i].Some?
    ensures var grants := ServeAll(pool, n, creations).grants;
            && |grants| == n
            && forall i :: 0 <= i < n ==>
                 (grants[i].Some? <==> i < MAX_STREAMS_PER_CONNECTION - Busy(pool))
    decreases n
  {
    if n > 0 {
      var g := GrantStream(pool, NextCreation(creations));
      GrantCounts(pool, NextCreation(creations));
      FirstInQueueAreServed(g.pool, n - 1, AfterGrant(g, creations));
    }
  }

  // ------------------------------------------------------------- the queue on the heap

  class QueueEntry {
    const context: Id
    var next: QueueEntry?
    var prev: QueueEntry?

    constructor (context: Id, next: QueueEntry?)
      ensures this.context == context && this.next == next && this.prev == null
    {
      this.context, this.next, this.prev := context, next, null;
    }
  }

  function Contexts(entries: seq<QueueEntry>): seq<Id> {
    seq(|entries|, i requires 0 <= i < |entries| => entries[i].context)
  }

  datatype Outcome = Outcome(context: Id, stream: Option<StreamId>)

  /** The part of a client that hands out streams. */
  class StreamAllocator {
    var back: QueueEntry?
    var front: QueueEntry?
    var pool: Pool
    var creations: seq<Option<StreamId>>   // what the next attempts to open a stream yield
    var finished: seq<Outcome>             // the contexts whose allocation is finished, in order
    ghost var entries: seq<QueueEntry>     // front first

    ghost predicate Linked(i: int)
      requires 0 <= i < |entries|
      reads this`entries, entries
    {
      && entries[i].next == (if i == 0 then null else entries[i - 1])
      && entries[i].prev == (if i == |entries| - 1 then null else entries[i + 1])
    }

    ghost predicate Valid()
      reads this`entries, this`back, this`front, entries
    {
      && (entries == [] ==> back == null && front == null)
      && (entries != [] ==> front == entries[0] && back == entries[|entries| - 1])
      && (forall i, j :: 0 <= i < j < |entries| ==> entries[i] != entries[j])
      && (forall i :: 0 <= i < |entries| ==> Linked(i))
    }

    /** The waiting calls, the first to have arrived first. */
    ghost function Queue(): seq<Id>
      reads this`entries
    {
      Contexts(entries)
    }

    constructor (pool: Pool, creations: seq<Option<StreamId>>)
      ensures Valid() && Queue() == [] && this.pool == pool && this.creations == creations && finished == []
      ensures entries == []
    {
      back, front, entries := null, null, [];
      this.pool, this.creations, finished := pool, creations, [];
    }

    method Push(context: Id)
      requires Valid()
      modifies this, entries
      ensures Valid() && Queue() == old(Queue()) + [context]
      ensures fresh(set e | e in entries && e !in old(entries))
      ensures pool == old(pool) && creations == old(creations) && finished == old(finished)
    {
      ghost var n := |entries|;
      assert n > 0 ==> Linked(n - 1);
      var entry := new QueueEntry(context, back);
      if back != null {
        back.prev := entry;
      }
      back := entry;
      if front == null {
        front := entry;
      }
      entries := entries + [entry];
      forall i | 0 <= i < |entries| ensures Linked(i) {
        if i < n {
          assert old(Linked(i)) && entries[i] == old(entries)[i];
        }
      }
    }

    method Pop() returns (code: nat)
      requires Valid()
      modifies this, entries
      ensures Valid()
      ensures code == (if old(Queue()) == [] then 2 else 0)
      ensures entries == if code == 0 then old(entries)[1..] else old(entries)
      ensures Queue() == if code == 0 then old(Queue())[1..] else old(Queue())
      ensures pool == old(pool) && creations == old(creations) && finished == old(finished)
    {
      if front == null {
        return 2;
      }
      assert Linked(0);
      var first := front;
      if first.prev != null {
        first.prev.next := null;
        front := first.prev;
      } else {
        front := null;
        back := null;
      }
      entries := entries[1..];
      assert forall i :: 0 <= i < |entries| ==> entries[i] == old(entries)[i + 1] && old(Linked(i + 1));
      assert forall i :: 0 <= i < |entries| ==> Linked(i);
      return 0;
    }

    /** Walks the pool for a free stream, or creates one. */
    method GetAvailableAuxiliaryStream() returns (sid: Option<StreamId>)
      modifies this`pool, this`creations
      ensures var g := GrantStream(old(pool), NextCreation(old(creations)));
              pool == g.pool && sid == g.sid && creations == AfterGrant(g, old(creations))
    {
      var i := 0;
      while i < |pool|
        invariant 0 <= i <= |pool| && i <= FirstFree(pool)
        invariant pool == old(pool) && creations == old(creations)
      {
        if !pool[i].value {
          sid := Some(pool[i].key);
          pool := pool[i := Entry(pool[i].key, true)];
          return;
        }
        i := i + 1;
      }
      if i == MAX_STREAMS_PER_CONNECTION {
        return None;
      }
      sid := NextCreation(creations);
      if creations != [] {
        creations := creations[1..];
      }
      if sid.Some? {
        pool := [Entry(sid.value, true)] + pool;
      }
    }

    method AllocateStream(context: Id)
      modifies this`pool, this`creations, this`finished
      ensures var g := GrantStream(old(pool), NextCreation(old(creations)));
              && pool == g.pool && creations == AfterGrant(g, old(creations))
              && finished == old(finished) + [Outcome(context, g.sid)]
    {
      var sid := GetAvailableAuxiliaryStream();
      finished := finished + [Outcome(context, sid)];
    }

    /** One turn of the callback's loop. */
    method ServeFront()
      requires Valid() && front != null
      modifies this, entries
      ensures Valid() && old(Queue()) != [] && entries == old(entries)[1..] && Queue() == old(Queue())[1..]
      ensures var g := GrantStream(old(pool), NextCreation(old(creations)));
              && pool == g.pool && creations == AfterGrant(g, old(creations))
              && finished == old(finished) + [Outcome(old(Queue())[0], g.sid)]
    {
      assert Linked(0) && front.context == Queue()[0];
      AllocateStream(front.context);
      var code := Pop();
    }

    /** The callback: serves every waiting call once, in the order of arrival, and empties the queue. */
    method AsyncStreamAllocatorCallback()
      requires Valid()
      modifies this, entries
      ensures Valid() && Queue() == []
      ensures var served := ServeAll(old(pool), |old(Queue())|, old(creations));
              && pool == served.pool && creations == served.creations
              && |served.grants| == |old(Queue())|
              && finished == old(finished) + Outcomes(old(Queue()), served.grants)
    {
      ghost var waiting := Queue();
      ServeQueueIsServeAll(pool, waiting, creations, finished);
      ghost var k := 0;
      while front != null
        invariant Valid()
        invariant k <= |old(entries)| && entries == old(entries)[k..]
        invariant ServeQueue(pool, Queue(), creations, finished) ==
                  ServeQueue(old(pool), waiting, old(creations), old(finished))
        decreases |entries|
      {
        ServeFront();
        k := k + 1;
      }
    }
  }

  // ------------------------------------------------------- the allocator in the protocol

  /** The allocator holds the queue and the pool of the client. */
  ghost predicate Represents(allocator: StreamAllocator, c: Client)
    reads allocator, allocator.entries
  {
    allocator.Valid() && allocator.Queue() == c.queue && allocator.pool == c.pool
  }

  /** A thread that starts a call makes the protocol's step on the allocator's queue. */
  method RequestStream(allocator: StreamAllocator, id: Id, ghost s: State, ghost conn: Conn, ghost call: Bytes)
    requires CanBegin(s, conn, id, call) && Represents(allocator, s.clients[conn])
    modifies allocator, allocator.entries
    ensures Represents(allocator, DoBegin(s, conn, id, call).clients[conn])
  {
    allocator.Push(id);
  }

  /** A turn of the callback's loop is the protocol's step for the call at the front of the queue. */
  method ServeRequest(allocator: StreamAllocator, ghost s: State, ghost conn: Conn) returns (ghost choice: Choice)
    requires conn in s.clients && Represents(allocator, s.clients[conn])
    requires allocator.front != null && Distinct(allocator.pool) && allocator.Queue()[0] in s.rpcs
    // the transport never gives out the id of a stream twice
    requires NextCreation(allocator.creations).Some? ==>
               Key(conn, NextCreation(allocator.creations).value) !in s.up
    modifies allocator, allocator.entries
    ensures CanAllocate(s, conn, choice)
    ensures Represents(allocator, DoAllocate(s, conn, choice).clients[conn])
    ensures var id := old(allocator.Queue())[0];
            var phase := DoAllocate(s, conn, choice).rpcs[id].phase;
            allocator.finished == old(allocator.finished) +
              [Outcome(id, if phase.Allocated? then Some(phase.sid) else None)]
  {
    choice := GrantIsChoice(allocator.pool, NextCreation(allocator.creations));
    allocator.ServeFront();
  }

  datatype Progress = Progress(pool: Pool, creations: seq<Option<StreamId>>, finished: seq<Outcome>)

  /** The queue served front to back. */
  function ServeQueue(pool: Pool, queue: seq<Id>, creations: seq<Option<StreamId>>, finished: seq<Outcome>): Progress
    decreases |queue|
  {
    if queue == [] then Progress(pool, creations, finished)
    else
      var g := GrantStream(pool, NextCreation(creations));
      ServeQueue(g.pool, queue[1..], AfterGrant(g, creations), finished + [Outcome(queue[0], g.sid)])
  }

  lemma {:induction false} ServeQueueIsServeAll(pool: Pool, queue: seq<Id>,
                                                creations: seq<Option<StreamId>>, finished: seq<Outcome>)
    ensures var served := ServeAll(pool, |queue|, creations);
            && |served.grants| == |queue|
            && ServeQueue(pool, queue, creations, finished) ==
               Progress(served.pool, served.creations, finished + Outcomes(queue, served.grants))
    decreases |queue|
  {
    ServeAllLength(pool, |queue|, creations);
    if queue != [] {
      var g := GrantStream(pool, NextCreation(creations));
      ServeQueueIsServeAll(g.pool, queue[1..], AfterGrant(g, creations), finished + [Outcome(queue[0], g.sid)]);
      var grants := ServeAll(pool, |queue|, creations).grants;
      assert grants[1..] == ServeAll(g.pool, |queue| - 1, AfterGrant(g, creations)).grants;
      assert Outcomes(queue, grants) == [Outcome(queue[0], g.sid)] + Outcomes(queue[1..], grants[1..]);
    }
  }

  function Outcomes(contexts: seq<Id>, grants: seq<Option<StreamId>>): (r: seq<Outcome>)
    requires |contexts| == |grants|
    ensures |r| == |contexts|
    ensures forall i :: 0 <= i < |r| ==> r[i] == Outcome(contexts[i], grants[i])
  {
    seq(|contexts|, i requires 0 <= i < |contexts| => Outcome(contexts[i], grants[i]))
  }

  lemma {:induction false} ServeAllLength(pool: Pool, n: nat, creations: seq<Option<StreamId>>)
    ensures |ServeAll(pool, n, creations).grants| == n
    decreases n
  {
    if n > 0 {
      var g := GrantStream(pool, NextCreation(creations));
      ServeAllLength(g.pool, n - 1, AfterGrant(g, creations));
    }
  }
}
