/**
 Remote calls over the multiplexed streams of QUIC connections, as a state
 machine: any number of invoker threads on any number of connections, each
 connection's event loop, and one server.  Every step is a stretch of code that
 runs under one lock or touches one shared field.  Transport failures are left
 out; bytes of a stream arrive in order and are cut into reads in any way.
 */
module QuicRpc {
  import opened Common
  import opened AssocList
  import opened RecordMarking
  import opened AtomicRpc

  const MAX_STREAMS_PER_CONNECTION := 10

  type Conn = nat
  type StreamId = nat

  datatype Key = Key(conn: Conn, sid: StreamId)

  /** Where an invoker thread is in its call. */
  datatype Phase =
    | Queued
    | AllocationFailed
    | Allocated(sid: StreamId)
    | Registered(sid: StreamId)
    | Releasing(sid: StreamId, result: Option<Bytes>)
    | Done(result: Option<Bytes>)
  {
    predicate HoldsStream() { Allocated? || Registered? || Releasing? }
  }

  datatype Rpc = Rpc(conn: Conn, call: Bytes, phase: Phase)

  /** A stream context as it is registered under the id of its stream. */
  datatype Context = Context(
    id: Id, call: Bytes, rm: Option<Rm>,
    attempted: bool, sent: bool, received: bool, finished: bool)

  /** A connection's allocation queue (front first), pool of streams with their in-use flag, and contexts. */
  datatype Client = Client(
    queue: seq<Id>,
    pool: seq<Entry<StreamId, bool>>,
    contexts: seq<Entry<StreamId, Context>>,
    killed: bool)

  datatype State = State(
    rpcs: map<Id, Rpc>,
    clients: map<Conn, Client>,
    server: seq<Entry<Key, Rm>>,
    up: map<Key, Bytes>,     // written by the client, not yet read by the server
    down: map<Key, Bytes>)   // written by the server, not yet read by the client

  const INIT := State(map[], map[], [], map[], map[])

  /** The outcome of asking the pool for a stream. */
  datatype Choice = Reuse(sid: StreamId) | Create(sid: StreamId) | Fail

  datatype Step =
    | Connect(conn: Conn)
    | Begin(conn: Conn, id: Id, call: Bytes)
    | Allocate(conn: Conn, choice: Choice)
    | GiveUp(id: Id)
    | Register(id: Id)
    | Writable(key: Key)
    | ServerReadable(key: Key, chunks: seq<Bytes>, left: Bytes, reply: Option<Bytes>)
    | ClientReadable(key: Key, chunks: seq<Bytes>, left: Bytes)
    | Unregister(id: Id)
    | Release(id: Id)

  // ---------------------------------------------------------- the code of a step

  function RmOf(rm: Option<Rm>): Rm { if rm.None? then INITIAL else rm.value }

  /**
   A free stream of the pool, or a new one while there are fewer than the limit.
   The walk races with the clearing of in-use flags, so that any free stream may be
   the one found, and a stream may be created although one has just become free.
   */
  predicate CanChoose(pool: seq<Entry<StreamId, bool>>, choice: Choice) {
    match choice
    case Reuse(sid) => Lookup(pool, sid) == Some(false)
    case Create(_) => |pool| != MAX_STREAMS_PER_CONNECTION
    case Fail => true
  }

  function Choose(pool: seq<Entry<StreamId, bool>>, choice: Choice): seq<Entry<StreamId, bool>> {
    match choice
    case Reuse(sid) => Replace(pool, sid, true)
    case Create(sid) => [Entry(sid, true)] + pool
    case Fail => pool
  }

  /** What became of a readable stream on the server. */
  datatype ServerRead = ServerRead(contexts: seq<Entry<Key, Rm>>, call: Option<Bytes>, code: nat, used: nat)

  function ServerOnReadable(contexts: seq<Entry<Key, Rm>>, key: Key, chunks: seq<Bytes>): ServerRead {
    var cs := if Lookup(contexts, key).None? then [Entry(key, INITIAL)] + contexts else contexts;
    var r := Receive(RmOf(Lookup(contexts, key)), chunks);
    var cs' := Replace(cs, key, r.rm);
    if r.code == 0 && r.rm.fullyReceived
    then ServerRead(Remove(cs', key), Some(r.rm.Saved()), r.code, r.used)
    else ServerRead(cs', None, r.code, r.used)
  }

  /** What became of a readable stream on the client. */
  datatype ClientRead = ClientRead(contexts: seq<Entry<StreamId, Context>>, code: nat, used: nat)

  function AfterRead(c: Context, r: Received): Context {
    var c' := c.(rm := Some(r.rm));
    if r.code > 0 then c'.(received := false, finished := true)
    else if r.rm.fullyReceived then c'.(received := true, finished := true)
    else c'
  }

  function ClientOnReadable(contexts: seq<Entry<StreamId, Context>>, sid: StreamId, chunks: seq<Bytes>): ClientRead {
    match Lookup(contexts, sid)
    case None => ClientRead(contexts, 0, 0)
    case Some(c) =>
      var r := Receive(RmOf(c.rm), chunks);
      ClientRead(Replace(contexts, sid, AfterRead(c, r)), r.code, r.used)
  }

  /** The call to send on a writable stream: that of its context, unless it was sent before. */
  function CallToSend(contexts: seq<Entry<StreamId, Context>>, sid: StreamId): Bytes {
    match Lookup(contexts, sid)
    case None => []
    case Some(c) => if c.attempted then [] else Encode(c.call)
  }

  function Written(c: Context): Context { c.(attempted := true, sent := if c.attempted then c.sent else true) }

  function ClientOnWritable(contexts: seq<Entry<StreamId, Context>>, sid: StreamId): seq<Entry<StreamId, Context>> {
    match Lookup(contexts, sid)
    case None => contexts
    case Some(c) => Replace(contexts, sid, Written(c))
  }

  function ResultOf(c: Context): Option<Bytes> {
    if c.sent && c.received then Some(RmOf(c.rm).Saved()) else None
  }

  // ------------------------------------------------------------- what one can see

  function ContextAt(s: State, key: Key): Option<Context> {
    if key.conn in s.clients then Lookup(s.clients[key.conn].contexts, key.sid) else None
  }

  function InUse(s: State, key: Key): Option<bool> {
    if key.conn in s.clients then Lookup(s.clients[key.conn].pool, key.sid) else None
  }

  /** The bytes of a stream that are yet to be read. */
  function Unread(m: map<Key, Bytes>, key: Key): Bytes { if key in m then m[key] else [] }

  // ------------------------------------------------------------------- the steps

  predicate HasPhase(s: State, id: Id) { id in s.rpcs && s.rpcs[id].conn in s.clients }

  function SetPhase(s: State, id: Id, phase: Phase): State
    requires id in s.rpcs
  {
    s.(rpcs := s.rpcs[id := s.rpcs[id].(phase := phase)])
  }

  function SetClient(s: State, conn: Conn, c: Client): State {
    s.(clients := s.clients[conn := c])
  }

  /** A thread starts a call: it creates a context and pushes it to the allocation queue. */
  predicate CanBegin(s: State, conn: Conn, id: Id, call: Bytes) {
    // a packed call message is never empty
    conn in s.clients && id !in s.rpcs && call != []
  }

  function DoBegin(s: State, conn: Conn, id: Id, call: Bytes): State
    requires CanBegin(s, conn, id, call)
  {
    var c := s.clients[conn];
    SetClient(s, conn, c.(queue := c.queue + [id])).(rpcs := s.rpcs[id := Rpc(conn, call, Queued)])
  }

  /** The event loop allocates a stream for the call at the front of the queue. */
  predicate CanAllocate(s: State, conn: Conn, choice: Choice) {
    && conn in s.clients && s.clients[conn].queue != [] && s.clients[conn].queue[0] in s.rpcs
    && CanChoose(s.clients[conn].pool, choice)
    // the transport never gives out the id of a stream twice
    && (choice.Create? ==> Key(conn, choice.sid) !in s.up)
  }

  function DoAllocate(s: State, conn: Conn, choice: Choice): State
    requires CanAllocate(s, conn, choice)
  {
    var c := s.clients[conn];
    var phase := if choice.Fail? then AllocationFailed else Allocated(choice.sid);
    var c' := c.(queue := c.queue[1..], pool := Choose(c.pool, choice));
    var s' := SetPhase(SetClient(s, conn, c'), c.queue[0], phase);
    if choice.Create?
    then s'.(up := s.up[Key(conn, choice.sid) := []], down := s.down[Key(conn, choice.sid) := []])
    else s'
  }

  /** The thread adds its context to the list of registered contexts. */
  predicate CanRegister(s: State, id: Id) { HasPhase(s, id) && s.rpcs[id].phase.Allocated? }

  function NewContext(s: State, id: Id): Context
    requires id in s.rpcs
  {
    Context(id, s.rpcs[id].call, None, false, false, false, false)
  }

  function DoRegister(s: State, id: Id): State
    requires CanRegister(s, id)
  {
    var rpc := s.rpcs[id];
    var c := s.clients[rpc.conn];
    var c' := c.(contexts := [Entry(rpc.phase.sid, NewContext(s, id))] + c.contexts);
    SetPhase(SetClient(s, rpc.conn, c'), id, Registered(rpc.phase.sid))
  }

  /** The event loop finds a stream writable. */
  predicate CanWrite(s: State, key: Key) { key.conn in s.clients && key in s.up }

  function DoWrite(s: State, key: Key): State
    requires CanWrite(s, key)
  {
    var c := s.clients[key.conn];
    SetClient(s, key.conn, c.(contexts := ClientOnWritable(c.contexts, key.sid)))
      .(up := s.up[key := s.up[key] + CallToSend(c.contexts, key.sid)])
  }

  /** What is still unread after a callback that used the first `used` of the reads. */
  function LeftOver(chunks: seq<Bytes>, used: nat, left: Bytes): Bytes {
    (if used <= |chunks| then Concat(chunks[used..]) else []) + left
  }

  /** The server finds a stream readable; `reply` is what the procedures answer, if anything. */
  predicate CanServe(s: State, key: Key, chunks: seq<Bytes>, left: Bytes, reply: Option<Bytes>) {
    && key in s.up && s.up[key] == Concat(chunks) + left && NonEmptyReads(chunks)
    // a packed reply message is never empty
    && reply != Some([])
  }

  function DoServe(s: State, key: Key, chunks: seq<Bytes>, left: Bytes, reply: Option<Bytes>): State {
    var r := ServerOnReadable(s.server, key, chunks);
    var sent := if r.call.Some? && reply.Some? then Encode(reply.value) else [];
    s.(server := r.contexts,
       up := s.up[key := LeftOver(chunks, r.used, left)],
       down := s.down[key := Unread(s.down, key) + sent])
  }

  /** The event loop finds a stream readable. */
  predicate CanRead(s: State, key: Key, chunks: seq<Bytes>, left: Bytes) {
    key.conn in s.clients && key in s.down && s.down[key] == Concat(chunks) + left && NonEmptyReads(chunks)
  }

  function DoRead(s: State, key: Key, chunks: seq<Bytes>, left: Bytes): State
    requires CanRead(s, key, chunks, left)
  {
    var c := s.clients[key.conn];
    var r := ClientOnReadable(c.contexts, key.sid, chunks);
    SetClient(s, key.conn, c.(contexts := r.contexts, killed := c.killed || r.code > 0))
      .(down := s.down[key := LeftOver(chunks, r.used, left)])
  }

  /** The thread sees its context finished, takes the reply and removes the context. */
  predicate CanUnregister(s: State, id: Id) {
    && HasPhase(s, id) && s.rpcs[id].phase.Registered?
    && var c := ContextAt(s, Key(s.rpcs[id].conn, s.rpcs[id].phase.sid));
       c.Some? && c.value.finished
  }

  function DoUnregister(s: State, id: Id): State
    requires CanUnregister(s, id)
  {
    var rpc := s.rpcs[id];
    var c := s.clients[rpc.conn];
    var result := ResultOf(Lookup(c.contexts, rpc.phase.sid).value);
    SetPhase(SetClient(s, rpc.conn, c.(contexts := Remove(c.contexts, rpc.phase.sid))),
             id, Releasing(rpc.phase.sid, result))
  }

  /** Only then does it clear the in-use flag of the stream, and return. */
  predicate CanRelease(s: State, id: Id) { HasPhase(s, id) && s.rpcs[id].phase.Releasing? }

  function DoRelease(s: State, id: Id): State
    requires CanRelease(s, id)
  {
    var rpc := s.rpcs[id];
    var c := s.clients[rpc.conn];
    SetPhase(SetClient(s, rpc.conn, c.(pool := Replace(c.pool, rpc.phase.sid, false))), id, Done(rpc.phase.result))
  }

  predicate CanGiveUp(s: State, id: Id) { HasPhase(s, id) && s.rpcs[id].phase.AllocationFailed? }

  predicate Enabled(s: State, step: Step) {
    match step
    case Connect(conn) => conn !in s.clients
    case Begin(conn, id, call) => CanBegin(s, conn, id, call)
    case Allocate(conn, choice) => CanAllocate(s, conn, choice)
    case GiveUp(id) => CanGiveUp(s, id)
    case Register(id) => CanRegister(s, id)
    case Writable(key) => CanWrite(s, key)
    case ServerReadable(key, chunks, left, reply) => CanServe(s, key, chunks, left, reply)
    case ClientReadable(key, chunks, left) => CanRead(s, key, chunks, left)
    case Unregister(id) => CanUnregister(s, id)
    case Release(id) => CanRelease(s, id)
  }

  function Apply(s: State, step: Step): State
    requires Enabled(s, step)
  {
    match step
    case Connect(conn) => SetClient(s, conn, Client([], [], [], false))
    case Begin(conn, id, call) => DoBegin(s, conn, id, call)
    case Allocate(conn, choice) => DoAllocate(s, conn, choice)
    case GiveUp(id) => SetPhase(s, id, Done(None))
    case Register(id) => DoRegister(s, id)
    case Writable(key) => DoWrite(s, key)
    case ServerReadable(key, chunks, left, reply) => DoServe(s, key, chunks, left, reply)
    case ClientReadable(key, chunks, left) => DoRead(s, key, chunks, left)
    case Unregister(id) => DoUnregister(s, id)
    case Release(id) => DoRelease(s, id)
  }

  /** What the step is to the callers and to the procedures that serve them. */
  function EventOf(s: State, step: Step): Event
    requires Enabled(s, step)
  {
    match step
    case Begin(_, id, call) => Invoke(id, call)
    case GiveUp(id) => Return(id, None)
    case Release(id) => Return(id, s.rpcs[id].phase.result)
    case ServerReadable(key, chunks, _, reply) =>
      var r := ServerOnReadable(s.server, key, chunks);
      if r.call.Some? then Execute(r.call.value, reply) else Internal
    case _ => Internal
  }

  ghost predicate IsQuicRun(states: seq<State>, steps: seq<Step>) {
    && |states| == |steps| + 1
    && states[0] == INIT
    && forall i :: 0 <= i < |steps| ==> Enabled(states[i], steps[i]) && states[i + 1] == Apply(states[i], steps[i])
  }

  // --------------------------------------------------------------- the invariant

  /** The exchange on a stream, seen with the status of the call its context is for. */
  predicate Exchange(c: Context, up: Bytes, down: Bytes, rm: Option<Rm>, status: Status) {
    match status
    case Pending(call) =>
      && call == c.call && down == [] && RmOf(c.rm) == INITIAL && !c.received && !c.finished
      && c.attempted == c.sent
      && (if c.attempted then HasRead(RmOf(rm), Encode(call), up) && up != []
          else up == [] && RmOf(rm) == INITIAL)
    case Served(call, reply) =>
      && call == c.call && c.attempted && c.sent && up == [] && RmOf(rm) == INITIAL && reply != Some([])
      && c.received == c.finished == (reply.Some? && RmOf(c.rm).fullyReceived)
      && (match reply
          case None => down == [] && RmOf(c.rm) == INITIAL
          case Some(r) => HasRead(RmOf(c.rm), Encode(r), down))
    case Completed => false
  }

  /** Each stream carries the exchange of the one call registered for it, and nothing else. */
  predicate StreamOk(s: State, a: Calls, key: Key) {
    var up, down, rm := Unread(s.up, key), Unread(s.down, key), Lookup(s.server, key);
    match ContextAt(s, key)
    case None => up == [] && down == [] && RmOf(rm) == INITIAL
    case Some(c) =>
      && c.id in s.rpcs && s.rpcs[c.id] == Rpc(key.conn, c.call, Registered(key.sid))
      && c.id in a && Exchange(c, up, down, rm, a[c.id])
  }

  predicate RpcOk(s: State, a: Calls, id: Id)
    requires id in s.rpcs
  {
    var rpc := s.rpcs[id];
    && rpc.conn in s.clients && rpc.call != [] && id in a
    && (rpc.phase.HoldsStream() ==> InUse(s, Key(rpc.conn, rpc.phase.sid)) == Some(true))
    && match rpc.phase
       case Queued => a[id] == Pending(rpc.call) && id in s.clients[rpc.conn].queue
       case AllocationFailed => a[id] == Pending(rpc.call)
       case Allocated(sid) => a[id] == Pending(rpc.call) && ContextAt(s, Key(rpc.conn, sid)) == None
       case Registered(sid) =>
         ContextAt(s, Key(rpc.conn, sid)).Some? && ContextAt(s, Key(rpc.conn, sid)).value.id == id
       case Releasing(sid, result) =>
         && result.Some? && a[id] == Served(rpc.call, result)
         && ContextAt(s, Key(rpc.conn, sid)) == None
       case Done(_) => a[id] == Completed
  }

  /** The stream that a call holds. */
  function Held(rpc: Rpc): Option<Key> {
    if rpc.phase.HoldsStream() then Some(Key(rpc.conn, rpc.phase.sid)) else None
  }

  ghost predicate HeldBySome(s: State, key: Key) {
    exists id :: id in s.rpcs && Held(s.rpcs[id]) == Some(key)
  }

  /** A stream marked as in use is held by a call. */
  ghost predicate PoolOk(s: State, key: Key) {
    && (InUse(s, key).Some? ==> key in s.up && key in s.down)
    && (InUse(s, key) == Some(true) ==> HeldBySome(s, key))
  }

  ghost predicate ClientOk(s: State, conn: Conn)
    requires conn in s.clients
  {
    var c := s.clients[conn];
    && Distinct(c.pool) && Distinct(c.contexts) && |c.pool| <= MAX_STREAMS_PER_CONNECTION && !c.killed
    && (forall i, j :: 0 <= i < j < |c.queue| ==> c.queue[i] != c.queue[j])
    && (forall i :: 0 <= i < |c.queue| ==>
          c.queue[i] in s.rpcs && s.rpcs[c.queue[i]].phase.Queued? && s.rpcs[c.queue[i]].conn == conn)
  }

  ghost predicate Exclusive(s: State) {
    forall x, y {:trigger Held(s.rpcs[x]), Held(s.rpcs[y])} ::
      x in s.rpcs && y in s.rpcs && x != y && Held(s.rpcs[x]).Some? ==> Held(s.rpcs[x]) != Held(s.rpcs[y])
  }

  ghost predicate Simulates(s: State, a: Calls) {
    && a.Keys == s.rpcs.Keys
    && Distinct(s.server)
    && Exclusive(s)
    && (forall conn {:trigger ClientOk(s, conn)} :: conn in s.clients ==> ClientOk(s, conn))
    && (forall id {:trigger RpcOk(s, a, id)} :: id in s.rpcs ==> RpcOk(s, a, id))
    && (forall key :: StreamOk(s, a, key))
    && (forall key :: PoolOk(s, key))
  }
}
