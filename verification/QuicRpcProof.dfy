/** Every run over QUIC is a run of atomic calls. */
module QuicRpcProof {
  import opened Common
  import opened AssocList
  import opened RecordMarking
  import opened AtomicRpc
  import opened QuicRpc

  // --------------------------------------------------------- what a step leaves alone

  predicate SameStream(s: State, s': State, key: Key) {
    && ContextAt(s', key) == ContextAt(s, key) && InUse(s', key) == InUse(s, key)
    && Unread(s'.up, key) == Unread(s.up, key) && Unread(s'.down, key) == Unread(s.down, key)
    && Lookup(s'.server, key) == Lookup(s.server, key)
    && (key in s.up ==> key in s'.up) && (key in s.down ==> key in s'.down)
  }

  predicate SameRpc(s: State, a: Calls, s': State, a': Calls, id: Id) {
    && id in s.rpcs && id in s'.rpcs && s'.rpcs[id] == s.rpcs[id]
    && id in a && id in a' && a'[id] == a[id]
    && s.rpcs[id].conn in s'.clients
    && (s.rpcs[id].phase.Queued? && s.rpcs[id].conn in s.clients && id in s.clients[s.rpcs[id].conn].queue
        ==> id in s'.clients[s.rpcs[id].conn].queue)
  }

  /** Only the call `x` and the stream `k` are touched, and `k` is held by no other call. */
  ghost predicate Frame(s: State, a: Calls, s': State, a': Calls, x: Option<Id>, k: Option<Key>) {
    && a'.Keys == s'.rpcs.Keys
    && s.rpcs.Keys <= s'.rpcs.Keys
    && (forall id :: id in s'.rpcs && id !in s.rpcs ==> x == Some(id))
    && (forall id {:trigger SameRpc(s, a, s', a', id)} :: id in s.rpcs && x != Some(id) ==> SameRpc(s, a, s', a', id))
    && (forall key {:trigger SameStream(s, s', key)} :: k != Some(key) ==> SameStream(s, s', key))
    && (k.Some? ==> forall id {:trigger Held(s.rpcs[id])} :: id in s.rpcs && x != Some(id) ==> Held(s.rpcs[id]) != k)
    && (x.Some? && x.value in s.rpcs && Held(s.rpcs[x.value]).Some? ==> Held(s.rpcs[x.value]) == k)
    && (x.Some? ==> x.value in s'.rpcs && (Held(s'.rpcs[x.value]).Some? ==> Held(s'.rpcs[x.value]) == k))
  }

  lemma Assemble(s: State, a: Calls, s': State, a': Calls, x: Option<Id>, k: Option<Key>)
    requires Simulates(s, a) && Frame(s, a, s', a', x, k)
    requires Distinct(s'.server)
             && forall conn {:trigger ClientOk(s', conn)} :: conn in s'.clients ==> ClientOk(s', conn)
    requires x.Some? ==> x.value in s'.rpcs && RpcOk(s', a', x.value)
    requires k.Some? ==> StreamOk(s', a', k.value) && PoolOk(s', k.value)
    ensures Simulates(s', a')
  {
    forall id | id in s'.rpcs ensures RpcOk(s', a', id) {
      if x != Some(id) { AssembleRpc(s, a, s', a', x, k, id); }
    }
    forall key ensures StreamOk(s', a', key) && PoolOk(s', key) {
      if k != Some(key) { AssembleStream(s, a, s', a', x, k, key); }
    }
    assert Exclusive(s') by { AssembleExclusive(s, a, s', a', x, k); }
  }

  lemma AssembleExclusive(s: State, a: Calls, s': State, a': Calls, x: Option<Id>, k: Option<Key>)
    requires Exclusive(s) && Frame(s, a, s', a', x, k)
    ensures Exclusive(s')
  {
    forall i, j | i in s'.rpcs && j in s'.rpcs && i != j && Held(s'.rpcs[i]).Some?
      ensures Held(s'.rpcs[i]) != Held(s'.rpcs[j])
    {
      if x != Some(i) { assert SameRpc(s, a, s', a', i); }
      if x != Some(j) { assert SameRpc(s, a, s', a', j); }
    }
  }

  lemma AssembleRpc(s: State, a: Calls, s': State, a': Calls, x: Option<Id>, k: Option<Key>, id: Id)
    requires Simulates(s, a) && Frame(s, a, s', a', x, k) && id in s.rpcs && x != Some(id)
    ensures id in s'.rpcs && RpcOk(s', a', id)
  {
    assert SameRpc(s, a, s', a', id);
    assert RpcOk(s, a, id);
    if s.rpcs[id].phase.HoldsStream() {
      assert Held(s.rpcs[id]).Some?;
      assert SameStream(s, s', Key(s.rpcs[id].conn, s.rpcs[id].phase.sid));
    }
  }

  lemma AssembleStream(s: State, a: Calls, s': State, a': Calls, x: Option<Id>, k: Option<Key>, key: Key)
    requires Simulates(s, a) && Frame(s, a, s', a', x, k) && k != Some(key)
    ensures StreamOk(s', a', key) && PoolOk(s', key)
  {
    assert SameStream(s, s', key);
    assert StreamOk(s, a, key) && PoolOk(s, key);
    var c := ContextAt(s, key);
    if c.Some? {
      assert Held(s.rpcs[c.value.id]) == Some(key);
      assert SameRpc(s, a, s', a', c.value.id);
    }
    if InUse(s, key) == Some(true) {
      var id :| id in s.rpcs && Held(s.rpcs[id]) == Some(key);
      assert SameRpc(s, a, s', a', id);
    }
  }

  /** A connection whose lists do not change, and whose queued calls stay queued. */
  lemma ClientFrame(s: State, s': State, conn: Conn)
    requires conn in s.clients && ClientOk(s, conn) && conn in s'.clients
    requires s'.clients[conn].queue == s.clients[conn].queue
    requires forall id :: id in s.rpcs && s.rpcs[id].phase.Queued? && s.rpcs[id].conn == conn ==>
                          id in s'.rpcs && s'.rpcs[id] == s.rpcs[id]
    requires var c, c' := s.clients[conn], s'.clients[conn];
             Distinct(c'.pool) && Distinct(c'.contexts) && |c'.pool| <= MAX_STREAMS_PER_CONNECTION && !c'.killed
    ensures ClientOk(s', conn)
  {
  }

  /** Another connection, or one whose pool and contexts alone change. */
  lemma ClientsFrame(s: State, a: Calls, s': State, a': Calls, x: Option<Id>, conn: Conn, c': Client)
    requires Simulates(s, a) && conn in s.clients && s'.clients == s.clients[conn := c']
    requires c'.queue == s.clients[conn].queue
    requires Distinct(c'.pool) && Distinct(c'.contexts) && |c'.pool| <= MAX_STREAMS_PER_CONNECTION && !c'.killed
    requires x.Some? ==> x.value in s.rpcs && !s.rpcs[x.value].phase.Queued?
    requires s'.rpcs.Keys == s.rpcs.Keys == a'.Keys
    requires forall id :: id in s.rpcs && x != Some(id) ==> s'.rpcs[id] == s.rpcs[id] && a'[id] == a[id]
    ensures forall d {:trigger ClientOk(s', d)} :: d in s'.clients ==> ClientOk(s', d)
    ensures forall id {:trigger SameRpc(s, a, s', a', id)} ::
              id in s.rpcs && x != Some(id) ==> SameRpc(s, a, s', a', id)
  {
    forall d | d in s'.clients ensures ClientOk(s', d) { ClientFrame(s, s', d); }
    forall id | id in s.rpcs && x != Some(id) ensures SameRpc(s, a, s', a', id) { assert RpcOk(s, a, id); }
  }

  // ------------------------------------------------------------ the steps, one by one

  lemma StepConnect(s: State, a: Calls, conn: Conn)
    requires Simulates(s, a) && conn !in s.clients
    ensures Simulates(SetClient(s, conn, Client([], [], [], false)), a)
  {
    var s' := SetClient(s, conn, Client([], [], [], false));
    forall d | d in s'.clients ensures ClientOk(s', d) {
      if d != conn { ClientFrame(s, s', d); }
    }
    forall id | id in s.rpcs ensures SameRpc(s, a, s', a, id) { assert RpcOk(s, a, id); }
    Assemble(s, a, s', a, None, None);
  }

  lemma BeginFrame(s: State, a: Calls, conn: Conn, id: Id, call: Bytes)
    requires Simulates(s, a) && CanBegin(s, conn, id, call)
    ensures var s', a' := DoBegin(s, conn, id, call), a[id := Pending(call)];
            && (forall d {:trigger ClientOk(s', d)} :: d in s'.clients ==> ClientOk(s', d))
            && (forall i {:trigger SameRpc(s, a, s', a', i)} :: i in s.rpcs ==> SameRpc(s, a, s', a', i))
            && RpcOk(s', a', id)
  {
    var s', a' := DoBegin(s, conn, id, call), a[id := Pending(call)];
    assert ClientOk(s, conn);
    forall d | d in s'.clients ensures ClientOk(s', d) {
      if d != conn { ClientFrame(s, s', d); }
    }
    forall i | i in s.rpcs ensures SameRpc(s, a, s', a', i) { assert RpcOk(s, a, i); }
    assert s'.clients[conn].queue[|s.clients[conn].queue|] == id;
  }

  lemma StepBegin(s: State, a: Calls, conn: Conn, id: Id, call: Bytes)
    requires Simulates(s, a) && CanBegin(s, conn, id, call)
    ensures Simulates(DoBegin(s, conn, id, call), a[id := Pending(call)])
  {
    BeginFrame(s, a, conn, id, call);
    Assemble(s, a, DoBegin(s, conn, id, call), a[id := Pending(call)], Some(id), None);
  }

  /** A stream that is not in use is quiet. */
  lemma FreeStreamIsQuiet(s: State, a: Calls, key: Key)
    requires Simulates(s, a) && InUse(s, key) != Some(true)
    ensures ContextAt(s, key) == None && StreamOk(s, a, key)
    ensures forall id {:trigger Held(s.rpcs[id])} :: id in s.rpcs ==> Held(s.rpcs[id]) != Some(key)
  {
    assert StreamOk(s, a, key);
    forall id | id in s.rpcs ensures Held(s.rpcs[id]) != Some(key) { assert RpcOk(s, a, id); }
  }

  lemma ChosenPool(pool: seq<Entry<StreamId, bool>>, choice: Choice, sid: StreamId)
    requires Distinct(pool) && |pool| <= MAX_STREAMS_PER_CONNECTION && CanChoose(pool, choice)
    requires choice.Create? ==> Lookup(pool, choice.sid) == None
    ensures var pool' := Choose(pool, choice);
            && Distinct(pool') && |pool'| <= MAX_STREAMS_PER_CONNECTION
            && Lookup(pool', sid) == if !choice.Fail? && sid == choice.sid then Some(true) else Lookup(pool, sid)
  {
    match choice
    case Reuse(r) => LookupReplace(pool, r, true, sid);
    case Create(r) => LookupAdd(Entry(r, true), pool, sid);
    case Fail =>
  }

  lemma AllocateClients(s: State, a: Calls, conn: Conn, choice: Choice)
    requires Simulates(s, a) && CanAllocate(s, conn, choice)
    requires choice.Create? ==> InUse(s, Key(conn, choice.sid)) == None
    ensures var s' := DoAllocate(s, conn, choice);
            forall d {:trigger ClientOk(s', d)} :: d in s'.clients ==> ClientOk(s', d)
  {
    var s' := DoAllocate(s, conn, choice);
    assert ClientOk(s, conn);
    ChosenPool(s.clients[conn].pool, choice, 0);
    forall d | d in s'.clients ensures ClientOk(s', d) {
      if d != conn { ClientFrame(s, s', d); }
    }
  }

  lemma AllocateRpcs(s: State, a: Calls, conn: Conn, choice: Choice)
    requires Simulates(s, a) && CanAllocate(s, conn, choice)
    ensures var x := s.clients[conn].queue[0];
            && x in s.rpcs && s.rpcs[x].phase.Queued? && s.rpcs[x].conn == conn
            && var s' := DoAllocate(s, conn, choice);
               forall id {:trigger SameRpc(s, a, s', a, id)} :: id in s.rpcs && id != x ==> SameRpc(s, a, s', a, id)
  {
    var s', c := DoAllocate(s, conn, choice), s.clients[conn];
    assert ClientOk(s, conn);
    forall id | id in s.rpcs && id != c.queue[0] ensures SameRpc(s, a, s', a, id) {
      assert RpcOk(s, a, id);
      assert c.queue == [c.queue[0]] + c.queue[1..];
    }
  }

  lemma AllocateStreams(s: State, a: Calls, conn: Conn, choice: Choice, key: Key)
    requires Simulates(s, a) && CanAllocate(s, conn, choice)
    requires choice.Create? ==> InUse(s, Key(conn, choice.sid)) == None
    ensures var s' := DoAllocate(s, conn, choice);
            if !choice.Fail? && key == Key(conn, choice.sid)
            then InUse(s', key) == Some(true) && ContextAt(s', key) == ContextAt(s, key)
            else SameStream(s, s', key)
  {
    assert ClientOk(s, conn);
    if key.conn == conn { ChosenPool(s.clients[conn].pool, choice, key.sid); }
  }

  lemma StepAllocate(s: State, a: Calls, conn: Conn, choice: Choice)
    requires Simulates(s, a) && CanAllocate(s, conn, choice)
    ensures Simulates(DoAllocate(s, conn, choice), a)
  {
    var s', x := DoAllocate(s, conn, choice), s.clients[conn].queue[0];
    var k := if choice.Fail? then None else Some(Key(conn, choice.sid));
    AllocateRpcs(s, a, conn, choice);
    assert RpcOk(s, a, x);
    if k.Some? {
      assert PoolOk(s, k.value);
      FreeStreamIsQuiet(s, a, k.value);
      AllocateStreams(s, a, conn, choice, k.value);
      assert Held(s'.rpcs[x]) == k;
      assert PoolOk(s', k.value);
    }
    AllocateClients(s, a, conn, choice);
    forall key | k != Some(key) ensures SameStream(s, s', key) { AllocateStreams(s, a, conn, choice, key); }
    Assemble(s, a, s', a, Some(x), k);
  }

  lemma StepGiveUp(s: State, a: Calls, x: Id)
    requires Simulates(s, a) && CanGiveUp(s, x)
    ensures a[x].Pending?
    ensures Simulates(SetPhase(s, x, Done(None)), a[x := Completed])
  {
    var s', a' := SetPhase(s, x, Done(None)), a[x := Completed];
    assert RpcOk(s, a, x);
    var conn := s.rpcs[x].conn;
    assert ClientOk(s, conn);
    assert s'.clients == s.clients[conn := s.clients[conn]];
    ClientsFrame(s, a, s', a', Some(x), conn, s.clients[conn]);
    Assemble(s, a, s', a', Some(x), None);
  }

  /** No other call holds the stream that `x` holds. */
  lemma HeldAlone(s: State, a: Calls, x: Id)
    requires Simulates(s, a) && x in s.rpcs && Held(s.rpcs[x]).Some?
    ensures forall id {:trigger Held(s.rpcs[id])} :: id in s.rpcs && id != x ==> Held(s.rpcs[id]) != Held(s.rpcs[x])
    ensures var key := Held(s.rpcs[x]).value;
            && InUse(s, key) == Some(true) && key in s.up && key in s.down && StreamOk(s, a, key)
            && key.conn in s.clients
  {
    assert RpcOk(s, a, x);
    assert PoolOk(s, Held(s.rpcs[x]).value);
  }

  /** Of the transport and the server, only what concerns one stream differs. */
  ghost predicate OnlyStream(s: State, s': State, key: Key) {
    && Distinct(s'.server)
    && (forall k {:trigger Lookup(s'.server, k)} :: k != key ==> Lookup(s'.server, k) == Lookup(s.server, k))
    && (forall k {:trigger Unread(s'.up, k)} :: k != key ==> Unread(s'.up, k) == Unread(s.up, k))
    && (forall k {:trigger Unread(s'.down, k)} :: k != key ==> Unread(s'.down, k) == Unread(s.down, k))
    && s.up.Keys <= s'.up.Keys && s.down.Keys <= s'.down.Keys
  }

  lemma ContextFrame(s: State, a: Calls, s': State, a': Calls, x: Id, key: Key, contexts: seq<Entry<StreamId, Context>>)
    requires Simulates(s, a) && x in s.rpcs && Held(s.rpcs[x]) == Some(key) && key.conn in s.clients
    requires s'.clients == s.clients[key.conn := s.clients[key.conn].(contexts := contexts)]
    requires Distinct(contexts)
    requires forall sid :: sid != key.sid ==> Lookup(contexts, sid) == Lookup(s.clients[key.conn].contexts, sid)
    requires s'.rpcs.Keys == s.rpcs.Keys == a'.Keys
    requires forall id :: id in s.rpcs && id != x ==> s'.rpcs[id] == s.rpcs[id] && a'[id] == a[id]
    requires OnlyStream(s, s', key) && Held(s'.rpcs[x]) == Some(key)
    ensures Frame(s, a, s', a', Some(x), Some(key)) && PoolOk(s', key)
    ensures forall conn {:trigger ClientOk(s', conn)} :: conn in s'.clients ==> ClientOk(s', conn)
  {
    assert ClientOk(s, key.conn);
    ClientsFrame(s, a, s', a', Some(x), key.conn, s'.clients[key.conn]);
    HeldAlone(s, a, x);
  }

  /** A step of the call `x` on the stream it holds, which changes only that stream's context. */
  lemma StepOnContext(s: State, a: Calls, s': State, a': Calls, x: Id, key: Key,
                      contexts: seq<Entry<StreamId, Context>>)
    requires Simulates(s, a) && x in s.rpcs && Held(s.rpcs[x]) == Some(key) && key.conn in s.clients
    requires s'.clients == s.clients[key.conn := s.clients[key.conn].(contexts := contexts)]
    requires Distinct(contexts)
    requires forall sid :: sid != key.sid ==> Lookup(contexts, sid) == Lookup(s.clients[key.conn].contexts, sid)
    requires s'.rpcs.Keys == s.rpcs.Keys == a'.Keys
    requires forall id :: id in s.rpcs && id != x ==> s'.rpcs[id] == s.rpcs[id] && a'[id] == a[id]
    requires OnlyStream(s, s', key)
    requires Held(s'.rpcs[x]) == Some(key) && RpcOk(s', a', x) && StreamOk(s', a', key)
    ensures Simulates(s', a')
  {
    ContextFrame(s, a, s', a', x, key, contexts);
    Assemble(s, a, s', a', Some(x), Some(key));
  }

  lemma StepRegister(s: State, a: Calls, x: Id)
    requires Simulates(s, a) && CanRegister(s, x)
    ensures Simulates(DoRegister(s, x), a)
  {
    var s', rpc := DoRegister(s, x), s.rpcs[x];
    var key, cs := Key(rpc.conn, rpc.phase.sid), s.clients[rpc.conn].contexts;
    var e := Entry(key.sid, NewContext(s, x));
    assert RpcOk(s, a, x) && ClientOk(s, rpc.conn);
    HeldAlone(s, a, x);
    forall sid ensures Lookup([e] + cs, sid) == if sid == key.sid then Some(e.value) else Lookup(cs, sid) {
      LookupAdd(e, cs, sid);
    }
    LookupAdd(e, cs, key.sid);
    StepOnContext(s, a, s', a, x, key, [e] + cs);
  }

  /** The call whose context is registered for a stream holds that stream. */
  lemma ContextOwner(s: State, a: Calls, key: Key)
    requires Simulates(s, a) && ContextAt(s, key).Some?
    ensures var c := ContextAt(s, key).value;
            && c.id in s.rpcs && s.rpcs[c.id] == Rpc(key.conn, c.call, Registered(key.sid))
            && Held(s.rpcs[c.id]) == Some(key) && c.id in a && c.call != []
            && RpcOk(s, a, c.id)
            && Exchange(c, Unread(s.up, key), Unread(s.down, key), Lookup(s.server, key), a[c.id])
            && InUse(s, key) == Some(true) && key in s.up && key in s.down && key.conn in s.clients
            && ClientOk(s, key.conn)
  {
    assert StreamOk(s, a, key);
    var id := ContextAt(s, key).value.id;
    assert RpcOk(s, a, id);
    assert PoolOk(s, key);
  }

  lemma ReplaceContext(cs: seq<Entry<StreamId, Context>>, sid: StreamId, c: Context)
    requires Distinct(cs) && Lookup(cs, sid).Some?
    ensures var cs' := Replace(cs, sid, c);
            && Distinct(cs') && Lookup(cs', sid) == Some(c)
            && forall k {:trigger Lookup(cs', k)} :: k != sid ==> Lookup(cs', k) == Lookup(cs, k)
  {
    forall k ensures Lookup(Replace(cs, sid, c), k) == if k == sid then Some(c) else Lookup(cs, k) {
      LookupReplace(cs, sid, c, k);
    }
    LookupReplace(cs, sid, c, sid);
  }

  lemma SentNow(c: Context, rm: Option<Rm>, status: Status)
    requires Exchange(c, [], [], rm, status) && !c.attempted && c.call != []
    ensures Exchange(c.(attempted := true, sent := true), Encode(c.call), [], rm, status)
  {
    EncodeNonEmpty(c.call);
    HasReadNothing(Encode(c.call));
  }

  lemma StepWrite(s: State, a: Calls, key: Key)
    requires Simulates(s, a) && CanWrite(s, key)
    ensures Simulates(DoWrite(s, key), a)
  {
    var s', cs := DoWrite(s, key), s.clients[key.conn].contexts;
    if ContextAt(s, key) == None {
      assert s.up[key] + [] == s.up[key];
      assert s' == s;
    } else {
      var c := ContextAt(s, key).value;
      ContextOwner(s, a, key);
      var c' := c.(attempted := true, sent := if c.attempted then c.sent else true);
      ReplaceContext(cs, key.sid, c');
      if c.attempted {
        assert c' == c && s.up[key] + [] == s.up[key];
      } else {
        SentNow(c, Lookup(s.server, key), a[c.id]);
        assert [] + Encode(c.call) == Encode(c.call);
      }
      StepOnContext(s, a, s', a, c.id, key, Replace(cs, key.sid, c'));
    }
  }

  // ----------------------------------------------------------------- the server

  lemma ServerLists(server: seq<Entry<Key, Rm>>, key: Key, chunks: seq<Bytes>)
    requires Distinct(server)
    ensures var r := ServerOnReadable(server, key, chunks);
            && Distinct(r.contexts)
            && (forall k {:trigger Lookup(r.contexts, k)} :: k != key ==> Lookup(r.contexts, k) == Lookup(server, k))
            && Lookup(r.contexts, key) ==
               if r.call.Some? then None else Some(Receive(RmOf(Lookup(server, key)), chunks).rm)
  {
    forall k ensures var r := ServerOnReadable(server, key, chunks);
                     && Distinct(r.contexts)
                     && Lookup(r.contexts, k) ==
                        if k != key then Lookup(server, k)
                        else if r.call.Some? then None else Some(Receive(RmOf(Lookup(server, key)), chunks).rm)
    {
      ServerListsAt(server, key, chunks, k);
    }
    ServerListsAt(server, key, chunks, key);
  }

  lemma ServerListsAt(server: seq<Entry<Key, Rm>>, key: Key, chunks: seq<Bytes>, k: Key)
    requires Distinct(server)
    ensures var r := ServerOnReadable(server, key, chunks);
            && Distinct(r.contexts)
            && Lookup(r.contexts, k) ==
               if k != key then Lookup(server, k)
               else if r.call.Some? then None else Some(Receive(RmOf(Lookup(server, key)), chunks).rm)
  {
    var cs := if Lookup(server, key).None? then [Entry(key, INITIAL)] + server else server;
    LookupAdd(Entry(key, INITIAL), server, k);
    LookupAdd(Entry(key, INITIAL), server, key);
    var rm := Receive(RmOf(Lookup(server, key)), chunks).rm;
    LookupReplace(cs, key, rm, k);
    LookupReplace(cs, key, rm, key);
    LookupRemove(Replace(cs, key, rm), key, k);
  }

  lemma ReadsAddUp(chunks: seq<Bytes>)
    requires NonEmptyReads(chunks)
    ensures Concat(chunks) == [] <==> chunks == []
  {
    if chunks != [] { assert |Concat(chunks)| >= |chunks[0]| > 0; }
  }

  lemma NothingToRead(chunks: seq<Bytes>, left: Bytes)
    requires NonEmptyReads(chunks) && Concat(chunks) + left == []
    ensures chunks == [] && left == []
  {
    ReadsAddUp(chunks);
  }

  /** Reads within a record use all that is available. */
  lemma AllRead(chunks: seq<Bytes>, left: Bytes)
    ensures LeftOver(chunks, |chunks|, left) == left
  {
    assert Concat(chunks[|chunks|..]) == [] && [] + left == left;
  }

  /** The server's part of an exchange: what a readable stream does to it. */
  lemma ServeExchange(c: Context, up: Bytes, down: Bytes, rm: Option<Rm>, status: Status,
                      server: seq<Entry<Key, Rm>>, key: Key, chunks: seq<Bytes>, left: Bytes, reply: Option<Bytes>)
    requires Exchange(c, up, down, rm, status) && c.call != [] && reply != Some([])
    requires Distinct(server) && Lookup(server, key) == rm
    requires up == Concat(chunks) + left && NonEmptyReads(chunks)
    ensures var r := ServerOnReadable(server, key, chunks);
            var up', rm' := LeftOver(chunks, r.used, left), Lookup(r.contexts, key);
            && r.code == 0
            && if r.call.Some? then
                 && r.call == Some(c.call) && status == Pending(c.call)
                 && Exchange(c, up', down + (if reply.Some? then Encode(reply.value) else []), rm',
                             Served(c.call, reply))
               else Exchange(c, up', down, rm', status)
  {
    var r := ServerOnReadable(server, key, chunks);
    ServerLists(server, key, chunks);
    AllRead(chunks, left);
    if status.Pending? && c.attempted {
      EncodeCompletes(c.call);
      CompleteOnlyAtLastByte(Encode(c.call), c.call, RmOf(rm), up);
      ReceiveWithinRecord(Encode(c.call), c.call, RmOf(rm), chunks, left);
      if r.call.Some? && reply.Some? {
        HasReadNothing(Encode(reply.value));
        EncodeCompletes(reply.value);
        EncodeNonEmpty(reply.value);
        CompleteOnlyAtLastByte(Encode(reply.value), reply.value, INITIAL, Encode(reply.value));
        assert down + Encode(reply.value) == Encode(reply.value);
      }
    } else {
      NothingToRead(chunks, left);
    }
  }

  /** Nothing changes but the server's fresh context for a stream. */
  lemma FreshServerContext(s: State, a: Calls, s': State, key: Key)
    requires Simulates(s, a) && s'.rpcs == s.rpcs && s'.clients == s.clients && Distinct(s'.server)
    requires RmOf(Lookup(s'.server, key)) == RmOf(Lookup(s.server, key)) && ContextAt(s, key) == None
    requires forall k {:trigger Lookup(s'.server, k)} :: k != key ==> Lookup(s'.server, k) == Lookup(s.server, k)
    requires s.up.Keys <= s'.up.Keys && s.down.Keys <= s'.down.Keys
    requires forall k {:trigger Unread(s'.up, k)} {:trigger Unread(s'.down, k)} ::
               Unread(s'.up, k) == Unread(s.up, k) && Unread(s'.down, k) == Unread(s.down, k)
    ensures Simulates(s', a)
  {
    forall conn | conn in s'.clients ensures ClientOk(s', conn) { assert ClientOk(s, conn); }
    forall id | id in s'.rpcs ensures RpcOk(s', a, id) {
      assert RpcOk(s, a, id);
      var k := Key(s.rpcs[id].conn, if s.rpcs[id].phase.HoldsStream() then s.rpcs[id].phase.sid else 0);
      assert ContextAt(s', k) == ContextAt(s, k) && InUse(s', k) == InUse(s, k);
    }
    forall k ensures StreamOk(s', a, k) && PoolOk(s', k) {
      assert StreamOk(s, a, k) && PoolOk(s, k);
      assert ContextAt(s', k) == ContextAt(s, k) && InUse(s', k) == InUse(s, k);
      assert HeldBySome(s', k) == HeldBySome(s, k);
      assert Lookup(s'.server, k) == Lookup(s.server, k) || k == key;
    }
  }

  /** A stream without a registered context has nothing to read; the server may at most create a fresh context. */
  lemma ServeQuiet(s: State, a: Calls, key: Key, chunks: seq<Bytes>, left: Bytes, reply: Option<Bytes>)
    requires Simulates(s, a) && CanServe(s, key, chunks, left, reply) && ContextAt(s, key) == None
    ensures ServerOnReadable(s.server, key, chunks).call == None
    ensures ServerOnReadable(s.server, key, chunks).code == 0
    ensures Simulates(DoServe(s, key, chunks, left, reply), a)
  {
    assert StreamOk(s, a, key);
    NothingToRead(chunks, left);
    AllRead(chunks, left);
    ServerLists(s.server, key, chunks);
    assert Unread(s.down, key) + [] == Unread(s.down, key);
    FreshServerContext(s, a, DoServe(s, key, chunks, left, reply), key);
  }

  lemma ServeEffect(s: State, key: Key, chunks: seq<Bytes>, left: Bytes, reply: Option<Bytes>)
    requires Distinct(s.server) && key in s.up
    ensures var s', r := DoServe(s, key, chunks, left, reply), ServerOnReadable(s.server, key, chunks);
            && OnlyStream(s, s', key) && s'.rpcs == s.rpcs && s'.clients == s.clients
            && Unread(s'.up, key) == LeftOver(chunks, r.used, left)
            && Unread(s'.down, key) ==
               Unread(s.down, key) + (if r.call.Some? && reply.Some? then Encode(reply.value) else [])
  {
    ServerLists(s.server, key, chunks);
  }

  /** An exchange moves on while the client's lists stay as they are. */
  lemma ExchangeMoves(s: State, a: Calls, s': State, key: Key, status: Status)
    requires Simulates(s, a) && ContextAt(s, key).Some?
    requires OnlyStream(s, s', key) && s'.rpcs == s.rpcs && s'.clients == s.clients
    requires Exchange(ContextAt(s, key).value, Unread(s'.up, key), Unread(s'.down, key), Lookup(s'.server, key), status)
    ensures ContextAt(s, key).value.id in a
    ensures Simulates(s', a[ContextAt(s, key).value.id := status])
  {
    ContextOwner(s, a, key);
    var c, cs := ContextAt(s, key).value, s.clients[key.conn].contexts;
    var a' := a[c.id := status];
    assert s'.clients == s.clients[key.conn := s.clients[key.conn].(contexts := cs)];
    assert ContextAt(s', key) == Some(c) && InUse(s', key) == Some(true);
    assert StreamOk(s', a', key) && RpcOk(s', a', c.id);
    StepOnContext(s, a, s', a', c.id, key, cs);
  }

  lemma ServeRegistered(s: State, a: Calls, key: Key, chunks: seq<Bytes>, left: Bytes, reply: Option<Bytes>)
    requires Simulates(s, a) && CanServe(s, key, chunks, left, reply) && ContextAt(s, key).Some?
    ensures var r, c := ServerOnReadable(s.server, key, chunks), ContextAt(s, key).value;
            && r.code == 0 && c.id in a && (r.call.Some? ==> a[c.id] == Pending(r.call.value))
            && Simulates(DoServe(s, key, chunks, left, reply),
                         a[c.id := if r.call.Some? then Served(r.call.value, reply) else a[c.id]])
  {
    var s', r := DoServe(s, key, chunks, left, reply), ServerOnReadable(s.server, key, chunks);
    ContextOwner(s, a, key);
    var c := ContextAt(s, key).value;
    ServeEffect(s, key, chunks, left, reply);
    ServeExchange(c, s.up[key], s.down[key], Lookup(s.server, key), a[c.id], s.server, key, chunks, left, reply);
    assert s.down[key] + [] == s.down[key];
    ExchangeMoves(s, a, s', key, if r.call.Some? then Served(c.call, reply) else a[c.id]);
  }

  lemma StepServe(s: State, a: Calls, key: Key, chunks: seq<Bytes>, left: Bytes, reply: Option<Bytes>)
    returns (a': Calls)
    requires Simulates(s, a) && CanServe(s, key, chunks, left, reply)
    ensures var r := ServerOnReadable(s.server, key, chunks);
            && r.code == 0
            && Next(a, if r.call.Some? then Execute(r.call.value, reply) else Internal, a')
    ensures Simulates(DoServe(s, key, chunks, left, reply), a')
  {
    var r := ServerOnReadable(s.server, key, chunks);
    a' := a;
    if ContextAt(s, key) == None {
      ServeQuiet(s, a, key, chunks, left, reply);
    } else {
      ServeRegistered(s, a, key, chunks, left, reply);
      var id := ContextAt(s, key).value.id;
      a' := a[id := if r.call.Some? then Served(r.call.value, reply) else a[id]];
      assert r.call.None? ==> a' == a;
    }
  }

  // ----------------------------------------------------------------- the client

  lemma ReadExchange(c: Context, up: Bytes, down: Bytes, rm: Option<Rm>, status: Status,
                     chunks: seq<Bytes>, left: Bytes)
    requires Exchange(c, up, down, rm, status)
    requires down == Concat(chunks) + left && NonEmptyReads(chunks)
    ensures var r := Receive(RmOf(c.rm), chunks);
            && r.code == 0
            && Exchange(AfterRead(c, r), up, LeftOver(chunks, r.used, left), rm, status)
  {
    AllRead(chunks, left);
    if status.Served? && status.reply.Some? {
      var whole := Encode(status.reply.value);
      EncodeCompletes(status.reply.value);
      CompleteOnlyAtLastByte(whole, status.reply.value, RmOf(c.rm), down);
      if down == [] {
        NothingToRead(chunks, left);
      } else {
        ReceiveWithinRecord(whole, status.reply.value, RmOf(c.rm), chunks, left);
      }
    } else {
      NothingToRead(chunks, left);
    }
  }

  lemma StepRead(s: State, a: Calls, key: Key, chunks: seq<Bytes>, left: Bytes)
    requires Simulates(s, a) && CanRead(s, key, chunks, left)
    ensures ClientOnReadable(s.clients[key.conn].contexts, key.sid, chunks).code == 0
    ensures Simulates(DoRead(s, key, chunks, left), a)
  {
    var s', cs := DoRead(s, key, chunks, left), s.clients[key.conn].contexts;
    if ContextAt(s, key) == None {
      assert chunks[0..] == chunks;
      assert s' == s;
    } else {
      var c := ContextAt(s, key).value;
      ContextOwner(s, a, key);
      var c' := AfterRead(c, Receive(RmOf(c.rm), chunks));
      ReadExchange(c, s.up[key], s.down[key], Lookup(s.server, key), a[c.id], chunks, left);
      ReplaceContext(cs, key.sid, c');
      StepOnContext(s, a, s', a, c.id, key, Replace(cs, key.sid, c'));
    }
  }

  /** What a finished context holds is the reply of its call. */
  lemma FinishedHasReply(c: Context, up: Bytes, down: Bytes, rm: Option<Rm>, status: Status)
    requires Exchange(c, up, down, rm, status) && c.finished
    ensures up == [] && down == [] && RmOf(rm) == INITIAL
    ensures ResultOf(c).Some? && status == Served(c.call, ResultOf(c))
  {
    var r := status.reply.value;
    EncodeCompletes(r);
    CompleteOnlyAtLastByte(Encode(r), r, RmOf(c.rm), down);
  }

  lemma StepUnregister(s: State, a: Calls, x: Id)
    requires Simulates(s, a) && CanUnregister(s, x)
    ensures Simulates(DoUnregister(s, x), a)
  {
    var s', rpc := DoUnregister(s, x), s.rpcs[x];
    var key, cs := Key(rpc.conn, rpc.phase.sid), s.clients[rpc.conn].contexts;
    assert RpcOk(s, a, x) && ClientOk(s, rpc.conn);
    HeldAlone(s, a, x);
    ContextOwner(s, a, key);
    FinishedHasReply(ContextAt(s, key).value, s.up[key], s.down[key], Lookup(s.server, key), a[x]);
    forall sid ensures Lookup(Remove(cs, key.sid), sid) == if sid == key.sid then None else Lookup(cs, sid) {
      LookupRemove(cs, key.sid, sid);
    }
    LookupRemove(cs, key.sid, key.sid);
    StepOnContext(s, a, s', a, x, key, Remove(cs, key.sid));
  }

  lemma StepRelease(s: State, a: Calls, x: Id)
    requires Simulates(s, a) && CanRelease(s, x)
    ensures Next(a, Return(x, s.rpcs[x].phase.result), a[x := Completed])
    ensures Simulates(DoRelease(s, x), a[x := Completed])
  {
    var s', a', rpc := DoRelease(s, x), a[x := Completed], s.rpcs[x];
    var key, pool := Key(rpc.conn, rpc.phase.sid), s.clients[rpc.conn].pool;
    assert RpcOk(s, a, x) && ClientOk(s, rpc.conn);
    HeldAlone(s, a, x);
    forall sid
      ensures Lookup(Replace(pool, key.sid, false), sid) == if sid == key.sid then Some(false) else Lookup(pool, sid)
    {
      LookupReplace(pool, key.sid, false, sid);
    }
    LookupReplace(pool, key.sid, false, key.sid);
    ClientsFrame(s, a, s', a', Some(x), rpc.conn, s'.clients[rpc.conn]);
    assert Held(s.rpcs[x]) == Some(key);
    assert PoolOk(s', key) && StreamOk(s', a', key);
    Assemble(s, a, s', a', Some(x), Some(key));
  }

  // ------------------------------------------------------------------- whole runs

  lemma StepSimulates(s: State, a: Calls, step: Step) returns (a': Calls)
    requires Simulates(s, a) && Enabled(s, step)
    ensures Next(a, EventOf(s, step), a') && Simulates(Apply(s, step), a')
  {
    a' := a;
    match step
    case Connect(conn) => StepConnect(s, a, conn);
    case Begin(conn, id, call) => StepBegin(s, a, conn, id, call); a' := a[id := Pending(call)];
    case Allocate(conn, choice) => StepAllocate(s, a, conn, choice);
    case GiveUp(id) => StepGiveUp(s, a, id); assert id in a; a' := a[id := Completed];
    case Register(id) => StepRegister(s, a, id);
    case Writable(key) => StepWrite(s, a, key);
    case ServerReadable(key, chunks, left, reply) => a' := StepServe(s, a, key, chunks, left, reply);
    case ClientReadable(key, chunks, left) => StepRead(s, a, key, chunks, left);
    case Unregister(id) => StepUnregister(s, a, id);
    case Release(id) => StepRelease(s, a, id); a' := a[id := Completed];
  }

  lemma InitSimulates()
    ensures Simulates(INIT, map[])
  {
    forall key ensures StreamOk(INIT, map[], key) && PoolOk(INIT, key) {}
  }

  /** The trace of a run. */
  ghost function Trace(states: seq<State>, steps: seq<Step>): seq<Event>
    requires IsQuicRun(states, steps)
  {
    seq(|steps|, i requires 0 <= i < |steps| => EventOf(states[i], steps[i]))
  }

  lemma RunPrefix(states: seq<State>, steps: seq<Step>, n: nat)
    requires IsQuicRun(states, steps) && n <= |steps|
    ensures IsQuicRun(states[..n + 1], steps[..n])
    ensures Trace(states[..n + 1], steps[..n]) == Trace(states, steps)[..n]
  {
  }

  /** Every run is explained by a run of atomic calls with the same trace. */
  lemma {:induction false} QuicRefinesAtomicRpc(states: seq<State>, steps: seq<Step>) returns (calls: seq<Calls>)
    requires IsQuicRun(states, steps)
    ensures IsRun(calls, Trace(states, steps))
    ensures Simulates(states[|steps|], calls[|steps|])
    decreases |steps|
  {
    var n := |steps|;
    if n == 0 {
      calls := [map[]];
      InitSimulates();
    } else {
      RunPrefix(states, steps, n - 1);
      var before := QuicRefinesAtomicRpc(states[..n], steps[..n - 1]);
      var a := StepSimulates(states[n - 1], before[n - 1], steps[n - 1]);
      var trace, e := Trace(states, steps), EventOf(states[n - 1], steps[n - 1]);
      ExtendRun(before, trace[..n - 1], e, a);
      assert trace[..n - 1] + [e] == trace;
      calls := before + [a];
    }
  }

  /** In every run each reply returned is the server's answer to exactly that invoker's call. */
  lemma QuicRepliesAnswerOwnCalls(states: seq<State>, steps: seq<Step>)
    requires IsQuicRun(states, steps)
    ensures exists invoked, executed :: Matching(Trace(states, steps), invoked, executed)
  {
    var calls := QuicRefinesAtomicRpc(states, steps);
    var invoked, executed := RepliesAnswerOwnCalls(calls, Trace(states, steps));
  }

  ghost predicate Reachable(s: State) {
    exists states, steps :: IsQuicRun(states, steps) && states[|steps|] == s
  }

  lemma ReachableSimulates(s: State) returns (a: Calls)
    requires Reachable(s)
    ensures Simulates(s, a)
  {
    var states, steps :| IsQuicRun(states, steps) && states[|steps|] == s;
    var calls := QuicRefinesAtomicRpc(states, steps);
    a := calls[|steps|];
  }

  /** The streams in use are exactly those held by calls, each by one, and a pool stays within its limit. */
  lemma StreamsAreExclusive(s: State)
    requires Reachable(s)
    ensures Exclusive(s)
    ensures forall key :: InUse(s, key) == Some(true) <==> HeldBySome(s, key)
    ensures forall conn :: conn in s.clients ==>
              |s.clients[conn].pool| <= MAX_STREAMS_PER_CONNECTION && !s.clients[conn].killed
    ensures forall conn, i, j :: conn in s.clients && 0 <= i < j < |s.clients[conn].contexts| ==>
              s.clients[conn].contexts[i].key != s.clients[conn].contexts[j].key
  {
    var a := ReachableSimulates(s);
    forall key ensures InUse(s, key) == Some(true) <==> HeldBySome(s, key) {
      assert PoolOk(s, key);
      if HeldBySome(s, key) {
        var id :| id in s.rpcs && Held(s.rpcs[id]) == Some(key);
        HeldAlone(s, a, id);
      }
    }
    forall conn | conn in s.clients ensures ClientOk(s, conn) {}
    forall conn, i, j | conn in s.clients && 0 <= i < j < |s.clients[conn].contexts|
      ensures s.clients[conn].contexts[i].key != s.clients[conn].contexts[j].key
    {
      assert ClientOk(s, conn);
      DistinctKeys(s.clients[conn].contexts, i, j);
    }
  }

  /** Neither side ever reads bytes that follow a record. */
  lemma NoDataFollowsARecord(s: State, step: Step)
    requires Reachable(s) && Enabled(s, step)
    ensures step.ServerReadable? ==> ServerOnReadable(s.server, step.key, step.chunks).code == 0
    ensures step.ClientReadable? ==>
            ClientOnReadable(s.clients[step.key.conn].contexts, step.key.sid, step.chunks).code == 0
  {
    var a := ReachableSimulates(s);
    match step
    case ServerReadable(key, chunks, left, reply) => var _ := StepServe(s, a, key, chunks, left, reply);
    case ClientReadable(key, chunks, left) => StepRead(s, a, key, chunks, left);
    case _ =>
  }

  /** A read that did fail would end its call without a reply and kill the client; no other call sees it. */
  lemma FailedReadEndsCall(s: State, key: Key, chunks: seq<Bytes>, left: Bytes, other: StreamId)
    requires CanRead(s, key, chunks, left) && ContextAt(s, key).Some?
    requires Receive(RmOf(ContextAt(s, key).value.rm), chunks).code > 0
    ensures var s' := DoRead(s, key, chunks, left);
            && s'.clients[key.conn].killed && s'.rpcs == s.rpcs
            && (var c := ContextAt(s', key); c.Some? && c.value.finished && ResultOf(c.value) == None)
            && (other != key.sid ==> ContextAt(s', Key(key.conn, other)) == ContextAt(s, Key(key.conn, other)))
  {
    var c, cs := ContextAt(s, key).value, s.clients[key.conn].contexts;
    var c' := AfterRead(c, Receive(RmOf(c.rm), chunks));
    LookupReplace(cs, key.sid, c', key.sid);
    LookupReplace(cs, key.sid, c', other);
  }

  // ------------------------------------------------------------- sent at most once

  /** The step writes the call record of `x` to its stream. */
  predicate SendsCall(s: State, step: Step, x: Id) {
    && step.Writable? && ContextAt(s, step.key).Some?
    && ContextAt(s, step.key).value.id == x && !ContextAt(s, step.key).value.attempted
  }

  predicate PastSending(s: State, x: Id) {
    && x in s.rpcs
    && match s.rpcs[x].phase
       case Registered(sid) =>
         var c := ContextAt(s, Key(s.rpcs[x].conn, sid));
         c.Some? && c.value.id == x && c.value.attempted
       case Releasing(_, _) => true
       case Done(_) => true
       case _ => false
  }

  lemma SendingIsPast(s: State, a: Calls, step: Step, x: Id)
    requires Simulates(s, a) && Enabled(s, step) && SendsCall(s, step, x)
    ensures PastSending(Apply(s, step), x) && !PastSending(s, x)
  {
    ContextOwner(s, a, step.key);
    var c := ContextAt(s, step.key).value;
    ReplaceContext(s.clients[step.key.conn].contexts, step.key.sid, c.(attempted := true, sent := true));
  }

  /** Registering and unregistering other calls does not change what a call has sent. */
  lemma PastSendingRegister(s: State, a: Calls, id: Id, x: Id)
    requires Simulates(s, a) && CanRegister(s, id) && PastSending(s, x)
    ensures PastSending(DoRegister(s, id), x)
  {
    if s.rpcs[x].phase.Registered? {
      assert RpcOk(s, a, x);
      assert Held(s.rpcs[id]) != Held(s.rpcs[x]);
      var cs := s.clients[s.rpcs[x].conn].contexts;
      LookupAdd(Entry(s.rpcs[id].phase.sid, NewContext(s, id)), cs, s.rpcs[x].phase.sid);
    }
  }

  lemma PastSendingUnregister(s: State, a: Calls, id: Id, x: Id)
    requires Simulates(s, a) && CanUnregister(s, id) && PastSending(s, x)
    ensures PastSending(DoUnregister(s, id), x)
  {
    if s.rpcs[x].phase.Registered? && x != id {
      assert RpcOk(s, a, x) && ClientOk(s, s.rpcs[x].conn);
      assert Held(s.rpcs[id]) != Held(s.rpcs[x]);
      LookupRemove(s.clients[s.rpcs[x].conn].contexts, s.rpcs[id].phase.sid, s.rpcs[x].phase.sid);
    }
  }

  /** Callbacks leave the `attempted` flag of every context set. */
  lemma PastSendingWrite(s: State, key: Key, x: Id)
    requires CanWrite(s, key) && PastSending(s, x)
    ensures PastSending(DoWrite(s, key), x)
  {
    if s.rpcs[x].phase.Registered? && ContextAt(s, key).Some? {
      var c := ContextAt(s, key).value;
      var c' := c.(attempted := true, sent := if c.attempted then c.sent else true);
      LookupReplace(s.clients[s.rpcs[x].conn].contexts, key.sid, c', s.rpcs[x].phase.sid);
    }
  }

  lemma PastSendingRead(s: State, key: Key, chunks: seq<Bytes>, left: Bytes, x: Id)
    requires CanRead(s, key, chunks, left) && PastSending(s, x)
    ensures PastSending(DoRead(s, key, chunks, left), x)
  {
    if s.rpcs[x].phase.Registered? && ContextAt(s, key).Some? {
      var c := ContextAt(s, key).value;
      var c' := AfterRead(c, Receive(RmOf(c.rm), chunks));
      LookupReplace(s.clients[s.rpcs[x].conn].contexts, key.sid, c', s.rpcs[x].phase.sid);
    }
  }

  lemma PastSendingStays(s: State, a: Calls, step: Step, x: Id)
    requires Simulates(s, a) && Enabled(s, step) && PastSending(s, x)
    ensures PastSending(Apply(s, step), x)
  {
    assert RpcOk(s, a, x);
    match step
    case Allocate(conn, choice) => AllocateRpcs(s, a, conn, choice);
    case Register(id) => PastSendingRegister(s, a, id, x);
    case Unregister(id) => PastSendingUnregister(s, a, id, x);
    case Writable(key) => PastSendingWrite(s, key, x);
    case ClientReadable(key, chunks, left) => PastSendingRead(s, key, chunks, left, x);
    case _ =>
  }

  lemma {:induction false} PastSendingForever(states: seq<State>, steps: seq<Step>, i: nat, j: nat, x: Id)
    requires IsQuicRun(states, steps) && i <= j <= |steps| && PastSending(states[i], x)
    ensures PastSending(states[j], x)
    decreases j
  {
    if i < j {
      PastSendingForever(states, steps, i, j - 1, x);
      RunPrefix(states, steps, j - 1);
      var calls := QuicRefinesAtomicRpc(states[..j], steps[..j - 1]);
      PastSendingStays(states[j - 1], calls[j - 1], steps[j - 1], x);
    }
  }

  /** In every run the record of a call is written at most once. */
  lemma SentAtMostOnce(states: seq<State>, steps: seq<Step>, i: nat, j: nat, x: Id)
    requires IsQuicRun(states, steps) && i < j < |steps|
    requires SendsCall(states[i], steps[i], x)
    ensures !SendsCall(states[j], steps[j], x)
  {
    RunPrefix(states, steps, i);
    var calls := QuicRefinesAtomicRpc(states[..i + 1], steps[..i]);
    SendingIsPast(states[i], calls[i], steps[i], x);
    PastSendingForever(states, steps, i + 1, j, x);
    if SendsCall(states[j], steps[j], x) {
      RunPrefix(states, steps, j);
      var later := QuicRefinesAtomicRpc(states[..j + 1], steps[..j]);
      SendingIsPast(states[j], later[j], steps[j], x);
    }
  }

  // ------------------------------------------------------------ first come, first served

  predicate Begun(s: State, conn: Conn, x: Id) { conn in s.clients && x in s.rpcs && s.rpcs[x].conn == conn }

  /** The call still waits for a stream. */
  predicate Waits(s: State, x: Id) { x in s.rpcs && s.rpcs[x].phase.Queued? }

  predicate Before(queue: seq<Id>, x: Id, y: Id) {
    exists p, q :: 0 <= p < q < |queue| && queue[p] == x && queue[q] == y
  }

  /** As long as `x` waits, `y` waits behind it. */
  predicate Ahead(s: State, conn: Conn, x: Id, y: Id) {
    && Begun(s, conn, x) && Begun(s, conn, y)
    && (Waits(s, x) ==> Waits(s, y) && Before(s.clients[conn].queue, x, y))
  }

  lemma BegunStays(s: State, a: Calls, step: Step, conn: Conn, x: Id)
    requires Simulates(s, a) && Enabled(s, step) && Begun(s, conn, x)
    ensures Begun(Apply(s, step), conn, x)
  {
    if step.Allocate? { AllocateRpcs(s, a, step.conn, step.choice); }
  }

  /** The one who begins stands behind all who wait. */
  lemma BeginsBehind(s: State, a: Calls, conn: Conn, y: Id, call: Bytes, x: Id)
    requires Simulates(s, a) && CanBegin(s, conn, y, call) && Begun(s, conn, x)
    ensures Ahead(DoBegin(s, conn, y, call), conn, x, y)
  {
    if Waits(s, x) {
      assert RpcOk(s, a, x);
      var queue := s.clients[conn].queue;
      var p :| 0 <= p < |queue| && queue[p] == x;
      assert (queue + [y])[p] == x && (queue + [y])[|queue|] == y;
    }
  }

  lemma AheadBegin(s: State, conn: Conn, id: Id, call: Bytes, c: Conn, x: Id, y: Id)
    requires CanBegin(s, c, id, call) && Ahead(s, conn, x, y)
    ensures Ahead(DoBegin(s, c, id, call), conn, x, y)
  {
    if Waits(s, x) {
      var queue := s.clients[conn].queue;
      var p, q :| 0 <= p < q < |queue| && queue[p] == x && queue[q] == y;
      assert (queue + [id])[p] == x && (queue + [id])[q] == y;
    }
  }

  lemma AheadAllocate(s: State, a: Calls, c: Conn, choice: Choice, conn: Conn, x: Id, y: Id)
    requires Simulates(s, a) && CanAllocate(s, c, choice) && Ahead(s, conn, x, y)
    ensures Ahead(DoAllocate(s, c, choice), conn, x, y)
  {
    var s' := DoAllocate(s, c, choice);
    AllocateRpcs(s, a, c, choice);
    if Waits(s', x) {
      var queue := s.clients[conn].queue;
      var p, q :| 0 <= p < q < |queue| && queue[p] == x && queue[q] == y;
      assert ClientOk(s, c) && ClientOk(s, conn);
      if c == conn {
        assert queue[0] != x && queue[0] != y;
        assert queue[1..][p - 1] == x && queue[1..][q - 1] == y;
      }
    }
  }

  lemma AheadElsewhere(s: State, s': State, conn: Conn, x: Id, y: Id)
    requires Ahead(s, conn, x, y) && Begun(s', conn, x) && Begun(s', conn, y)
    requires s'.clients[conn].queue == s.clients[conn].queue
    requires (Waits(s', x) ==> Waits(s, x)) && (Waits(s, y) ==> Waits(s', y))
    ensures Ahead(s', conn, x, y)
  {
  }

  lemma AheadStays(s: State, a: Calls, step: Step, conn: Conn, x: Id, y: Id)
    requires Simulates(s, a) && Enabled(s, step) && Ahead(s, conn, x, y)
    ensures Ahead(Apply(s, step), conn, x, y)
  {
    match step
    case Begin(c, id, call) => AheadBegin(s, conn, id, call, c, x, y);
    case Allocate(c, choice) => AheadAllocate(s, a, c, choice, conn, x, y);
    case _ => AheadElsewhere(s, Apply(s, step), conn, x, y);
  }

  lemma {:induction false} BegunForever(states: seq<State>, steps: seq<Step>, i: nat, j: nat, conn: Conn, x: Id)
    requires IsQuicRun(states, steps) && i <= j <= |steps| && Begun(states[i], conn, x)
    ensures Begun(states[j], conn, x)
    decreases j
  {
    if i < j {
      BegunForever(states, steps, i, j - 1, conn, x);
      RunPrefix(states, steps, j - 1);
      var calls := QuicRefinesAtomicRpc(states[..j], steps[..j - 1]);
      BegunStays(states[j - 1], calls[j - 1], steps[j - 1], conn, x);
    }
  }

  lemma {:induction false} AheadForever(states: seq<State>, steps: seq<Step>, i: nat, j: nat, conn: Conn, x: Id, y: Id)
    requires IsQuicRun(states, steps) && i <= j <= |steps| && Ahead(states[i], conn, x, y)
    ensures Ahead(states[j], conn, x, y)
    decreases j
  {
    if i < j {
      AheadForever(states, steps, i, j - 1, conn, x, y);
      RunPrefix(states, steps, j - 1);
      var calls := QuicRefinesAtomicRpc(states[..j], steps[..j - 1]);
      AheadStays(states[j - 1], calls[j - 1], steps[j - 1], conn, x, y);
    }
  }

  /** In every run, a call does not get past the queue before those begun earlier on its connection. */
  lemma CallsLeaveTheQueueInOrder(states: seq<State>, steps: seq<Step>, i: nat, j: nat, k: nat)
    requires IsQuicRun(states, steps) && i < j < k <= |steps|
    requires steps[i].Begin? && steps[j].Begin? && steps[i].conn == steps[j].conn
    ensures var rpcs, x, y := states[k].rpcs, steps[i].id, steps[j].id;
            && x != y && x in rpcs && y in rpcs
            && (!rpcs[y].phase.Queued? ==> !rpcs[x].phase.Queued?)
  {
    var conn, x, y := steps[i].conn, steps[i].id, steps[j].id;
    BegunForever(states, steps, i + 1, j, conn, x);
    RunPrefix(states, steps, j);
    var calls := QuicRefinesAtomicRpc(states[..j + 1], steps[..j]);
    BeginsBehind(states[j], calls[j], conn, y, steps[j].call, x);
    AheadForever(states, steps, j + 1, k, conn, x, y);
  }
}
