/** The callbacks of the two QUIC endpoints on the lists they keep. */
module QuicEndpoints {
  import opened Common
  import opened AssocList
  import opened RecordMarking
  import opened ReceivingContext
  import opened QuicRpc

  /** The server's list of receiving contexts, one object per stream being received. */
  class QuicServer {
    var contexts: seq<Entry<Key, RmReceivingContext>>

    ghost predicate Valid()
      reads this, Objects()
    {
      && (forall i :: 0 <= i < |contexts| ==> contexts[i].value.State().Valid())
      && (forall i, j :: 0 <= i < j < |contexts| ==> contexts[i].value != contexts[j].value)
    }

    ghost function Objects(): set<RmReceivingContext>
      reads this
    {
      set i | 0 <= i < |contexts| :: contexts[i].value
    }

    /** The states the objects are in. */
    ghost function Contents(): (c: seq<Entry<Key, Rm>>)
      reads this, Objects()
      ensures |c| == |contexts|
      ensures forall i :: 0 <= i < |c| ==> c[i] == Entry(contexts[i].key, contexts[i].value.State())
    {
      seq(|contexts|, i requires 0 <= i < |contexts| reads this, Objects() =>
        Entry(contexts[i].key, contexts[i].value.State()))
    }

    constructor ()
      ensures Valid() && Contents() == []
    {
      contexts := [];
    }

    /** The position of the context of a stream, or the length of the list. */
    method FindContext(key: Key) returns (i: nat)
      ensures i == Position(contexts, key) == Position(Contents(), key)
    {
      i := Find(contexts, key);
      SamePosition(contexts, Contents(), key);
    }

    method AddNewContext(key: Key)
      requires Valid()
      modifies this
      ensures Valid() && Contents() == [Entry(key, INITIAL)] + old(Contents())
      ensures fresh(Objects() - old(Objects()))
    {
      var context := new RmReceivingContext();
      contexts := [Entry(key, context)] + contexts;
      assert forall i :: 0 < i < |contexts| ==> contexts[i] == old(contexts)[i - 1];
    }

    method RemoveAt(i: nat)
      requires Valid() && i < |contexts|
      modifies this
      ensures Valid() && Objects() <= old(Objects())
      ensures Contents() == old(Contents())[..i] + old(Contents())[i + 1..]
    {
      ghost var cs, before := Contents(), contexts;
      contexts := contexts[..i] + contexts[i + 1..];
      forall j | 0 <= j < |contexts|
        ensures contexts[j] == before[if j < i then j else j + 1]
        ensures contexts[j].value in old(Objects())
      {
      }
      assert Contents() == cs[..i] + cs[i + 1..];
    }

    method RemoveContext(key: Key)
      requires Valid()
      modifies this
      ensures Valid() && Contents() == Remove(old(Contents()), key)
      ensures Objects() <= old(Objects())
    {
      ghost var cs := Contents();
      var i := FindContext(key);
      assert Contents() == cs;
      RemoveAtPosition(cs, key, i);
      if i < |contexts| {
        RemoveAt(i);
      }
    }

    /** The position of the stream's context, created if there is none. */
    method GetContext(key: Key) returns (i: nat)
      requires Valid()
      modifies this
      ensures Valid() && fresh(Objects() - old(Objects()))
      ensures i < |contexts| && i == Position(Contents(), key)
      ensures var cs := old(Contents());
              && Contents() == (if Lookup(cs, key).None? then [Entry(key, INITIAL)] + cs else cs)
              && contexts[i].value.State() == RmOf(Lookup(cs, key))
    {
      ghost var cs := Contents();
      AtPosition(cs, key, INITIAL);
      i := FindContext(key);
      assert Contents() == cs;
      if i == |contexts| {
        AddNewContext(key);
        i := FindContext(key);
      }
    }

    method ReceiveAt(i: nat, key: Key, chunks: seq<Bytes>) returns (code: nat, used: nat)
      requires Valid() && i < |contexts| && i == Position(Contents(), key)
      requires forall j :: 0 <= j < |chunks| ==> |chunks[j]| <= READ_BUF_SIZE
      modifies contexts[i].value
      ensures Valid() && contexts == old(contexts)
      ensures Received(contexts[i].value.State(), code, used) == Receive(old(contexts[i].value.State()), chunks)
      ensures Contents() == Replace(old(Contents()), key, contexts[i].value.State())
    {
      code, used := contexts[i].value.ReceiveAvailableBytes(chunks);
      AtPosition(old(Contents()), key, contexts[i].value.State());
    }

    /** Gives the call record that is complete, if any. */
    method OnStreamReadable(key: Key, chunks: seq<Bytes>) returns (call: Option<Bytes>, code: nat, used: nat)
      requires Valid()
      requires forall i :: 0 <= i < |chunks| ==> |chunks[i]| <= READ_BUF_SIZE
      modifies this, Objects()
      ensures Valid()
      ensures ServerRead(Contents(), call, code, used) == ServerOnReadable(old(Contents()), key, chunks)
    {
      var i := GetContext(key);
      code, used := ReceiveAt(i, key, chunks);
      var context := contexts[i].value;
      call := None;
      if code == 0 && context.fullyReceived {
        call := Some(BufferBytes(context.accumulated));
        RemoveContext(key);
      }
    }
  }

  lemma {:induction false} SamePosition<K, V, W>(xs: seq<Entry<K, V>>, ys: seq<Entry<K, W>>, k: K)
    requires |xs| == |ys| && forall i :: 0 <= i < |xs| ==> xs[i].key == ys[i].key
    ensures Position(xs, k) == Position(ys, k)
  {
    if xs != [] && xs[0].key != k { SamePosition(xs[1..], ys[1..], k); }
  }

  /** The context of one call, which owns the receiving context of its reply. */
  class StreamContext {
    const id: nat
    const call: Bytes
    var rm: RmReceivingContext?
    var attempted: bool
    var sent: bool
    var received: bool
    var finished: bool

    ghost predicate Valid()
      reads this, rm
    {
      rm != null ==> rm.State().Valid()
    }

    ghost function State(): Context
      reads this, rm
    {
      Context(id, call, if rm == null then None else Some(rm.State()), attempted, sent, received, finished)
    }

    constructor (id: nat, call: Bytes)
      ensures Valid() && State() == Context(id, call, None, false, false, false, false)
    {
      this.id, this.call, rm := id, call, null;
      attempted, sent, received, finished := false, false, false, false;
    }

    /** Gives the bytes written to the stream. */
    method OnWritable() returns (written: Bytes)
      modifies this
      ensures State() == Written(old(State()))
      ensures written == (if old(attempted) then [] else Encode(call)) && rm == old(rm)
    {
      if attempted {
        return [];
      }
      attempted := true;
      sent := true;
      return Encode(call);
    }

    method OnReadable(chunks: seq<Bytes>) returns (code: nat, used: nat)
      requires Valid()
      requires forall i :: 0 <= i < |chunks| ==> |chunks[i]| <= READ_BUF_SIZE
      modifies this, rm
      ensures Valid() && rm != null && (if old(rm) == null then fresh(rm) else rm == old(rm))
      ensures var r := Receive(RmOf(old(State()).rm), chunks);
              State() == AfterRead(old(State()), r) && code == r.code && used == r.used
    {
      if rm == null {
        rm := new RmReceivingContext();
      }
      code, used := rm.ReceiveAvailableBytes(chunks);
      if code > 0 {
        received, finished := false, true;
      } else if rm.fullyReceived {
        received, finished := true, true;
      }
    }
  }

  /** The client's list of stream contexts. */
  class QuicClientContexts {
    var contexts: seq<Entry<StreamId, StreamContext>>

    ghost function Owners(): set<StreamContext>
      reads this
    {
      set i | 0 <= i < |contexts| :: contexts[i].value
    }

    ghost function Receivers(): set<RmReceivingContext>
      reads this, Owners()
    {
      set i | 0 <= i < |contexts| && contexts[i].value.rm != null :: contexts[i].value.rm
    }

    ghost predicate Valid()
      reads this, Owners(), Receivers()
    {
      && (forall i :: 0 <= i < |contexts| ==> contexts[i].value.Valid())
      && (forall i, j :: 0 <= i < j < |contexts| ==>
            && contexts[i].value != contexts[j].value
            && (contexts[i].value.rm == null || contexts[i].value.rm != contexts[j].value.rm))
    }

    /** The states the objects are in. */
    ghost function Contents(): (c: seq<Entry<StreamId, Context>>)
      reads this, Owners(), Receivers()
      ensures |c| == |contexts|
      ensures forall i :: 0 <= i < |c| ==> c[i] == Entry(contexts[i].key, contexts[i].value.State())
    {
      seq(|contexts|, i requires 0 <= i < |contexts| reads this, Owners(), Receivers() =>
        Entry(contexts[i].key, contexts[i].value.State()))
    }

    constructor ()
      ensures Valid() && Contents() == []
    {
      contexts := [];
    }

    method Add(sid: StreamId, c: StreamContext)
      requires Valid() && c.Valid() && c !in Owners() && (c.rm == null || c.rm !in Receivers())
      modifies this
      ensures Valid() && Contents() == [Entry(sid, c.State())] + old(Contents())
    {
      contexts := [Entry(sid, c)] + contexts;
      assert forall i :: 0 < i < |contexts| ==> contexts[i] == old(contexts)[i - 1];
    }

    method FindStreamContext(sid: StreamId) returns (i: nat)
      ensures i == Position(contexts, sid) == Position(Contents(), sid)
    {
      i := Find(contexts, sid);
      SamePosition(contexts, Contents(), sid);
    }

    method RemoveAt(i: nat)
      requires Valid() && i < |contexts|
      modifies this
      ensures Valid() && Contents() == old(Contents())[..i] + old(Contents())[i + 1..]
    {
      ghost var cs, before := Contents(), contexts;
      contexts := contexts[..i] + contexts[i + 1..];
      forall j | 0 <= j < |contexts| ensures contexts[j] == before[if j < i then j else j + 1] {}
      assert Contents() == cs[..i] + cs[i + 1..];
    }

    /** Unlinks the context of a stream; nothing happens when there is none. */
    method RemoveStreamContext(sid: StreamId)
      requires Valid()
      modifies this
      ensures Valid() && Contents() == Remove(old(Contents()), sid)
    {
      ghost var cs := Contents();
      var i := FindStreamContext(sid);
      assert Contents() == cs;
      RemoveAtPosition(cs, sid, i);
      if i < |contexts| {
        RemoveAt(i);
      }
    }

    /** The callback on the object at a position leaves the others alone. */
    method WriteAt(i: nat) returns (written: Bytes)
      requires Valid() && i < |contexts|
      modifies contexts[i].value
      ensures Valid() && contexts == old(contexts)
      ensures var c := old(contexts[i].value.State());
              && Contents() == old(Contents())[i := Entry(contexts[i].key, Written(c))]
              && written == (if c.attempted then [] else Encode(c.call))
    {
      written := contexts[i].value.OnWritable();
    }

    method ReadAt(i: nat, chunks: seq<Bytes>) returns (code: nat, used: nat)
      requires Valid() && i < |contexts|
      requires forall j :: 0 <= j < |chunks| ==> |chunks[j]| <= READ_BUF_SIZE
      modifies contexts[i].value, contexts[i].value.rm
      ensures Valid() && contexts == old(contexts)
      ensures var c := old(contexts[i].value.State());
              var r := Receive(RmOf(c.rm), chunks);
              && Contents() == old(Contents())[i := Entry(contexts[i].key, AfterRead(c, r))]
              && code == r.code && used == r.used
    {
      code, used := contexts[i].value.OnReadable(chunks);
    }

    /** Gives the bytes written to the stream. */
    method OnStreamWritable(sid: StreamId) returns (written: Bytes)
      requires Valid()
      modifies Owners()
      ensures Valid() && contexts == old(contexts)
      ensures Contents() == ClientOnWritable(old(Contents()), sid)
      ensures written == CallToSend(old(Contents()), sid)
    {
      ghost var cs := Contents();
      var i := FindStreamContext(sid);
      assert Contents() == cs;
      WritableAt(cs, sid, i);
      if i == |contexts| {
        return [];
      }
      written := WriteAt(i);
    }

    method OnStreamReadable(sid: StreamId, chunks: seq<Bytes>) returns (code: nat, used: nat)
      requires Valid()
      requires forall i :: 0 <= i < |chunks| ==> |chunks[i]| <= READ_BUF_SIZE
      modifies Owners(), Receivers()
      ensures Valid() && contexts == old(contexts)
      ensures ClientRead(Contents(), code, used) == ClientOnReadable(old(Contents()), sid, chunks)
    {
      ghost var cs := Contents();
      var i := FindStreamContext(sid);
      assert Contents() == cs;
      ReadableAt(cs, sid, i, chunks);
      if i == |contexts| {
        return 0, 0;
      }
      code, used := ReadAt(i, chunks);
    }
  }

  /** What the callbacks do is done to the first context of the stream, or to none. */
  lemma WritableAt(cs: seq<Entry<StreamId, Context>>, sid: StreamId, i: nat)
    requires i == Position(cs, sid)
    ensures if i == |cs| then ClientOnWritable(cs, sid) == cs && CallToSend(cs, sid) == []
            else
              && ClientOnWritable(cs, sid) == cs[i := Entry(sid, Written(cs[i].value))]
              && CallToSend(cs, sid) == if cs[i].value.attempted then [] else Encode(cs[i].value.call)
  {
    LookupAtPosition(cs, sid);
    if i < |cs| { ReplaceAtPosition(cs, sid, Written(cs[i].value), i); }
  }

  lemma ReadableAt(cs: seq<Entry<StreamId, Context>>, sid: StreamId, i: nat, chunks: seq<Bytes>)
    requires i == Position(cs, sid)
    ensures if i == |cs| then ClientOnReadable(cs, sid, chunks) == ClientRead(cs, 0, 0)
            else
              var r := Receive(RmOf(cs[i].value.rm), chunks);
              ClientOnReadable(cs, sid, chunks) ==
              ClientRead(cs[i := Entry(sid, AfterRead(cs[i].value, r))], r.code, r.used)
  {
    LookupAtPosition(cs, sid);
    if i < |cs| {
      ReplaceAtPosition(cs, sid, AfterRead(cs[i].value, Receive(RmOf(cs[i].value.rm), chunks)), i);
    }
  }
}
