/** The blocking TCP receiver of record marking, and its agreement with the QUIC one. */
module TcpRecordMarking {
  import opened Common
  import opened RecordMarking

  /** The buffer that is returned, which may be NULL, and the bytes after the record. */
  datatype Parse = Incomplete | Got(buffer: Option<Bytes>, rest: Bytes)

  /** The buffer after realloc and the receipt of a payload; resizing an allocated one to no bytes gives NULL. */
  function Grown(buffer: Option<Bytes>, payload: Bytes): Option<Bytes> {
    var bytes := BufferBytes(buffer) + payload;
    if buffer.Some? && bytes == [] then None else Some(bytes)
  }

  /** What receive_rm_record_tcp makes of the bytes of the connection. */
  function ParseRecord(acc: Option<Bytes>, input: Bytes): Parse
    decreases |input|
  {
    if |input| < HEADER_SIZE then Incomplete
    else
      var end := HEADER_SIZE + PayloadSize(input[..HEADER_SIZE]);
      if |input| < end then Incomplete
      else
        var acc' := Grown(acc, input[HEADER_SIZE..end]);
        if IsLast(input[..HEADER_SIZE]) then Got(acc', input[end..]) else ParseRecord(acc', input[end..])
  }

  /** How many bytes the receiver is asking the socket for, having read `got` of a record. */
  function Wanted(got: Bytes): nat
    decreases |got|
  {
    if |got| < HEADER_SIZE then HEADER_SIZE - |got|
    else
      var end := HEADER_SIZE + PayloadSize(got[..HEADER_SIZE]);
      if |got| < end then end - |got|
      else if IsLast(got[..HEADER_SIZE]) then 0 else Wanted(got[end..])
  }

  lemma {:induction false} WantedNothingExactlyAtEnd(acc: Option<Bytes>, got: Bytes)
    ensures Wanted(got) == 0 <==> ParseRecord(acc, got).Got?
    decreases |got|
  {
    if |got| >= HEADER_SIZE {
      var end := HEADER_SIZE + PayloadSize(got[..HEADER_SIZE]);
      if |got| >= end && !IsLast(got[..HEADER_SIZE]) {
        WantedNothingExactlyAtEnd(Grown(acc, got[HEADER_SIZE..end]), got[end..]);
      }
    }
  }

  lemma {:induction false} ParseAppend(acc: Option<Bytes>, a: Bytes, b: Bytes)
    requires ParseRecord(acc, a).Got?
    ensures ParseRecord(acc, a + b) == Got(ParseRecord(acc, a).buffer, ParseRecord(acc, a).rest + b)
    decreases |a|
  {
    var h := a[..HEADER_SIZE];
    var end := HEADER_SIZE + PayloadSize(h);
    assert (a + b)[..HEADER_SIZE] == h;
    assert (a + b)[HEADER_SIZE..end] == a[HEADER_SIZE..end] && (a + b)[end..] == a[end..] + b;
    if !IsLast(h) { ParseAppend(Grown(acc, a[HEADER_SIZE..end]), a[end..], b); }
  }

  /** The buffer after all fragments of a record. */
  function Gathered(acc: Option<Bytes>, fs: seq<Fragment>): Option<Bytes>
    decreases |fs|
  {
    if fs == [] then acc else Gathered(Grown(acc, fs[0].data), fs[1..])
  }

  predicate Odd(n: nat) { n > 0 && !Odd(n - 1) }

  /** A record with data is returned; one without is NULL exactly when its number of fragments is even. */
  lemma {:induction false} GatheredExactly(acc: Option<Bytes>, fs: seq<Fragment>)
    ensures var bytes := BufferBytes(acc) + Payload(fs);
            Gathered(acc, fs) ==
            if bytes != [] || acc.Some? != Odd(|fs|) then Some(bytes) else None
    decreases |fs|
  {
    var bytes := BufferBytes(acc);
    if fs == [] {
      assert bytes + Payload(fs) == bytes;
    } else {
      var data, tail := fs[0].data, fs[1..];
      GatheredExactly(Grown(acc, data), tail);
      assert Payload(fs) == data + Payload(tail);
      assert bytes + data + Payload(tail) == bytes + (data + Payload(tail));
    }
  }

  /** Every well-formed record is received to its end, empty fragments included. */
  lemma {:induction false} ParseWire(acc: Option<Bytes>, fs: seq<Fragment>, rest: Bytes)
    requires WellFormed(fs)
    ensures ParseRecord(acc, Wire(fs) + rest) == Got(Gathered(acc, fs), rest)
    decreases |fs|
  {
    var f, tail := fs[0], fs[1..];
    var input, end := Wire(fs) + rest, HEADER_SIZE + |f.data|;
    HeaderDecodes(f.last, |f.data|);
    assert input == FragmentBytes(f) + (Wire(tail) + rest);
    assert input[..HEADER_SIZE] == Header(f.last, |f.data|);
    assert input[HEADER_SIZE..end] == f.data && input[end..] == Wire(tail) + rest;
    if tail == [] {
      assert [] + rest == rest;
    } else {
      assert forall i :: 0 <= i < |tail| ==> tail[i] == fs[i + 1];
      ParseWire(Grown(acc, f.data), tail, rest);
    }
  }

  /** And nothing else is: what is received was sent as the fragments of a well-formed record. */
  lemma {:induction false} ParseFindsRecord(acc: Option<Bytes>, input: Bytes) returns (fs: seq<Fragment>)
    requires ParseRecord(acc, input).Got?
    ensures WellFormed(fs) && input == Wire(fs) + ParseRecord(acc, input).rest
    ensures ParseRecord(acc, input).buffer == Gathered(acc, fs)
    decreases |input|
  {
    var h := input[..HEADER_SIZE];
    var end := HEADER_SIZE + PayloadSize(h);
    var f := Fragment(IsLast(h), input[HEADER_SIZE..end]);
    FragmentInFront(input, h, f);
    if f.last {
      FirstFragment(acc, f, []);
      InFrontOfRest(input, end, [], input[end..]);
      fs := [f] + [];
    } else {
      var tail := ParseFindsRecord(Grown(acc, f.data), input[end..]);
      FirstFragment(acc, f, tail);
      InFrontOfRest(input, end, Wire(tail), ParseRecord(acc, input).rest);
      fs := [f] + tail;
    }
  }

  lemma FragmentInFront(input: Bytes, h: Bytes, f: Fragment)
    requires |input| >= HEADER_SIZE && h == input[..HEADER_SIZE] && |input| >= HEADER_SIZE + PayloadSize(h)
    requires f == Fragment(IsLast(h), input[HEADER_SIZE..HEADER_SIZE + PayloadSize(h)])
    ensures FragmentBytes(f) == input[..HEADER_SIZE + PayloadSize(h)]
  {
    NetworkByteOrder(h);
  }

  lemma InFrontOfRest(input: Bytes, end: nat, wire: Bytes, rest: Bytes)
    requires end <= |input| && input[end..] == wire + rest
    ensures input == input[..end] + wire + rest
  {
    assert input == input[..end] + input[end..];
  }

  lemma FirstFragment(acc: Option<Bytes>, f: Fragment, fs: seq<Fragment>)
    requires |f.data| <= MAX_FRAGMENT_SIZE && (if f.last then fs == [] else WellFormed(fs))
    ensures WellFormed([f] + fs) && Wire([f] + fs) == FragmentBytes(f) + Wire(fs)
    ensures Gathered(acc, [f] + fs) == Gathered(Grown(acc, f.data), fs)
  {
    assert ([f] + fs)[1..] == fs;
  }

  /** The receiver never asks for bytes beyond the end of its record. */
  lemma {:induction false} WantedWithinRecord(acc: Option<Bytes>, got: Bytes, left: Bytes)
    requires ParseRecord(acc, got + left).Got? && ParseRecord(acc, got).Incomplete?
    ensures 0 < Wanted(got) <= |left|
    decreases |got|
  {
    var whole := got + left;
    if |got| >= HEADER_SIZE {
      var end := HEADER_SIZE + PayloadSize(got[..HEADER_SIZE]);
      assert whole[..HEADER_SIZE] == got[..HEADER_SIZE];
      if |got| >= end {
        assert whole[HEADER_SIZE..end] == got[HEADER_SIZE..end] && whole[end..] == got[end..] + left;
        WantedWithinRecord(Grown(acc, got[HEADER_SIZE..end]), got[end..], left);
      }
    }
  }

  /** What is sent for a record is received as that record, whatever follows. */
  lemma ParseEncoded(record: Bytes, rest: Bytes)
    requires record != []
    ensures ParseRecord(None, Encode(record) + rest) == Got(Some(record), rest)
  {
    ParseWire(None, Fragments(record), rest);
    GatheredExactly(None, Fragments(record));
    assert [] + record == record;
  }

  /** A sender's record is received at its last byte and not before. */
  lemma ParseWithinRecord(record: Bytes, got: Bytes, left: Bytes)
    requires record != [] && Encode(record) == got + left
    ensures ParseRecord(None, got) == if left == [] then Got(Some(record), []) else Incomplete
  {
    ParseEncoded(record, []);
    assert Encode(record) + [] == got + left;
    if left == [] {
      assert got + left == got;
    } else if ParseRecord(None, got).Got? {
      ParseAppend(None, got, left);
      assert false;
    }
  }

  // ----------------------------------------------------------- self-delimiting

  function EncodeAll(records: seq<Bytes>): Bytes {
    if records == [] then [] else Encode(records[0]) + EncodeAll(records[1..])
  }

  /** Repeated receipt of records: those received until one is NULL or unfinished, and the bytes left then. */
  function ParseAll(input: Bytes): (seq<Bytes>, Bytes)
    decreases |input|
  {
    var p := ParseRecord(None, input);
    if p.Incomplete? || p.buffer.None? then ([], input)
    else
      ParseShrinks(None, input);
      var (records, left) := ParseAll(p.rest);
      ([p.buffer.value] + records, left)
  }

  lemma {:induction false} ParseShrinks(acc: Option<Bytes>, input: Bytes)
    requires ParseRecord(acc, input).Got?
    ensures |ParseRecord(acc, input).rest| < |input|
    decreases |input|
  {
    var h := input[..HEADER_SIZE];
    var end := HEADER_SIZE + PayloadSize(h);
    if !IsLast(h) { ParseShrinks(Grown(acc, input[HEADER_SIZE..end]), input[end..]); }
  }

  /** The encodings of any list of non-empty records, one after the other, decode to that list. */
  lemma {:induction false} SelfDelimiting(records: seq<Bytes>)
    requires forall i :: 0 <= i < |records| ==> records[i] != []
    ensures ParseAll(EncodeAll(records)) == (records, [])
    decreases |records|
  {
    if records != [] {
      ParseEncoded(records[0], EncodeAll(records[1..]));
      SelfDelimiting(records[1..]);
      assert [records[0]] + records[1..] == records;
    }
  }

  // ------------------------------------------------- agreement of the receivers

  lemma TcpReceives(fs: seq<Fragment>)
    requires WellFormed(fs)
    ensures ParseRecord(None, Wire(fs)) == Got(Gathered(None, fs), [])
    ensures Payload(fs) != [] ==> Gathered(None, fs) == Some(Payload(fs))
  {
    ParseWire(None, fs, []);
    GatheredExactly(None, fs);
    assert Wire(fs) + [] == Wire(fs) && [] + Payload(fs) == Payload(fs);
  }

  /** What the incremental receiver makes of a record, under every chunking. */
  lemma QuicReceives(fs: seq<Fragment>, chunks: seq<Bytes>)
    requires WellFormed(fs) && NonEmptyReads(chunks) && Concat(chunks) == Wire(fs)
    ensures var r := Receive(INITIAL, chunks);
            && r.code == (if StartsEmptyTwice(None, fs) && |fs| > 2 then 3 else 0)
            && (r.rm.fullyReceived <==> fs[|fs| - 1].data != [] && !StartsEmptyTwice(None, fs))
            && (r.rm.fullyReceived ==> r.rm.accumulated == Some(Payload(fs)))
  {
    ReceiveIsFeed(INITIAL, chunks);
    if StartsEmptyTwice(None, fs) {
      FeedEmptyStart(fs, []);
      assert Wire(fs) + [] == Wire(fs);
    } else {
      FeedWire(None, fs);
      ReceiveStopsAtEnd(INITIAL, chunks);
      assert [] + Payload(fs) == Payload(fs);
    }
  }

  /**
   On every well-formed record and under every chunking, the incremental receiver yields the
   blocking receiver's record if and only if the last fragment carries data and the first two
   are not both empty.
   */
  lemma ReceiversAgreeExactly(fs: seq<Fragment>, chunks: seq<Bytes>)
    requires WellFormed(fs) && NonEmptyReads(chunks) && Concat(chunks) == Wire(fs)
    ensures ParseRecord(None, Wire(fs)) == Got(Gathered(None, fs), [])
    ensures var r := Receive(INITIAL, chunks);
            && (r.code == 0 && r.rm.fullyReceived && Got(r.rm.accumulated, []) == ParseRecord(None, Wire(fs))
                <==> fs[|fs| - 1].data != [] && !StartsEmptyTwice(None, fs))
            && r.code == (if StartsEmptyTwice(None, fs) && |fs| > 2 then 3 else 0)
  {
    TcpReceives(fs);
    QuicReceives(fs, chunks);
    if fs[|fs| - 1].data != [] { LastDataIsPayload(fs); }
  }

  lemma {:induction false} LastDataIsPayload(fs: seq<Fragment>)
    requires |fs| > 0 && fs[|fs| - 1].data != []
    ensures Payload(fs) != []
    decreases |fs|
  {
    if |fs| > 1 { LastDataIsPayload(fs[1..]); }
  }

  /**
   On QUIC a record without data in its last fragment, or with none in its first two, ends in
   an error once other bytes follow: that for trailing bytes, or that for a buffer that is gone.
   */
  lemma EmptyFragmentsFail(fs: seq<Fragment>, chunks: seq<Bytes>, more: Bytes)
    requires WellFormed(fs) && NonEmptyReads(chunks) && Concat(chunks) == Wire(fs) && more != []
    requires fs[|fs| - 1].data == [] || StartsEmptyTwice(None, fs)
    ensures Receive(INITIAL, chunks + [more]).code == if StartsEmptyTwice(None, fs) then 3 else 4
  {
    ConcatAppend(chunks, [more]);
    assert Concat([more]) == more;
    ReceiveIsFeed(INITIAL, chunks + [more]);
    if StartsEmptyTwice(None, fs) {
      FeedEmptyStart(fs, more);
    } else {
      FeedWire(None, fs);
      FeedAppend(INITIAL, Wire(fs), more);
      ReceiveAllOfIt(INITIAL, chunks, more);
    }
  }

  /** Reads that leave the record unfinished are all consumed before the one that follows. */
  lemma {:induction false} ReceiveAllOfIt(s: Rm, chunks: seq<Bytes>, more: Bytes)
    requires !s.fullyReceived && NonEmptyReads(chunks) && more != []
    requires !Feed(s, Concat(chunks)).Stopped()
    ensures Receive(s, chunks + [more]).used == |chunks| + 1
    decreases |chunks|
  {
    if chunks == [] {
      assert chunks + [more] == [more];
    } else {
      FeedAppend(s, chunks[0], Concat(chunks[1..]));
      assert (chunks + [more])[1..] == chunks[1..] + [more];
      ReceiveAllOfIt(Feed(s, chunks[0]).rm, chunks[1..], more);
    }
  }

  /** Records with data in the last fragment and none in the first two: TCP accepts them, QUIC fails. */
  lemma OnlyTcpAccepts(fs: seq<Fragment>, chunks: seq<Bytes>)
    requires WellFormed(fs) && NonEmptyReads(chunks) && Concat(chunks) == Wire(fs)
    requires fs[|fs| - 1].data != [] && StartsEmptyTwice(None, fs)
    ensures ParseRecord(None, Wire(fs)) == Got(Some(Payload(fs)), [])
    ensures Receive(INITIAL, chunks).code == 3 && !Receive(INITIAL, chunks).rm.fullyReceived
  {
    TcpReceives(fs);
    QuicReceives(fs, chunks);
    LastDataIsPayload(fs);
  }

  /** The shortest of them. */
  lemma OnlyTcpAcceptsSome(b: Byte) returns (fs: seq<Fragment>)
    ensures WellFormed(fs) && fs[|fs| - 1].data == [b] && StartsEmptyTwice(None, fs)
    ensures ParseRecord(None, Wire(fs)) == Got(Some(Payload(fs)), []) && Receive(INITIAL, [Wire(fs)]).code == 3
  {
    fs := [Fragment(false, []), Fragment(false, []), Fragment(true, [b])];
    assert Concat([Wire(fs)]) == Wire(fs) + [] == Wire(fs);
    assert Wire(fs) != [];
    OnlyTcpAccepts(fs, [Wire(fs)]);
  }
}
