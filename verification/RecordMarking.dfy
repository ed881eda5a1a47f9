/**
 Record marking (section 11 of RFC 5531) as the QUIC transport does it: the
 fragments the sender writes, and the incremental receiver whose input may be
 cut at any byte.
 */
module RecordMarking {
  import opened Common

  const HEADER_SIZE := 4
  const MAX_FRAGMENT_SIZE := 0x7FFFFFFF
  const LAST_FRAGMENT_BIT := 0x80000000
  const READ_BUF_SIZE := 10000

  // ---------------------------------------------------------------- headers

  /** The header word in network byte order. */
  function Header(last: bool, size: nat): (h: Bytes)
    requires size <= MAX_FRAGMENT_SIZE
    ensures |h| == HEADER_SIZE
  {
    var word := (if last then LAST_FRAGMENT_BIT else 0) + size;
    [word / 0x100 / 0x100 / 0x100, word / 0x100 / 0x100 % 0x100, word / 0x100 % 0x100, word % 0x100]
  }

  function HeaderWord(h: Bytes): (w: nat)
    requires |h| == HEADER_SIZE
    ensures w < 0x100000000
  {
    var b0: int, b1: int, b2: int, b3: int := h[0], h[1], h[2], h[3];
    b0 * 0x1000000 + b1 * 0x10000 + b2 * 0x100 + b3
  }

  predicate IsLast(h: Bytes)
    requires |h| == HEADER_SIZE
  {
    HeaderWord(h) / LAST_FRAGMENT_BIT == 1
  }

  function PayloadSize(h: Bytes): (n: nat)
    requires |h| == HEADER_SIZE
    ensures n <= MAX_FRAGMENT_SIZE
  {
    HeaderWord(h) % LAST_FRAGMENT_BIT
  }

  lemma HeaderDecodes(last: bool, size: nat)
    requires size <= MAX_FRAGMENT_SIZE
    ensures IsLast(Header(last, size)) == last
    ensures PayloadSize(Header(last, size)) == size
  {
    var word := (if last then LAST_FRAGMENT_BIT else 0) + size;
    assert HeaderWord(Header(last, size)) == word;
  }

  lemma LowByte(q: nat, b: nat)
    requires b < 0x100
    ensures (q * 0x100 + b) / 0x100 == q && (q * 0x100 + b) % 0x100 == b
  {
  }

  /** The flag is the first bit, and the other 31 are the size. */
  lemma FlagAndSize(h: Bytes, b0: nat, low: nat)
    requires |h| == HEADER_SIZE && b0 == h[0] && low < 0x1000000 && HeaderWord(h) == b0 * 0x1000000 + low
    ensures IsLast(h) <==> b0 >= 0x80
    ensures PayloadSize(h) == (if b0 >= 0x80 then b0 - 0x80 else b0) * 0x1000000 + low
  {
  }

  /** The header is in network byte order, the flag in its first bit; every four bytes are one header. */
  lemma NetworkByteOrder(h: Bytes)
    requires |h| == HEADER_SIZE
    ensures IsLast(h) <==> h[0] >= 0x80
    ensures var b0: int, b1: int, b2: int, b3: int := h[0], h[1], h[2], h[3];
            PayloadSize(h) == ((((if b0 >= 0x80 then b0 - 0x80 else b0) * 0x100 + b1) * 0x100) + b2) * 0x100 + b3
    ensures Header(IsLast(h), PayloadSize(h)) == h
  {
    var b0: nat, b1: nat, b2: nat, b3: nat := h[0], h[1], h[2], h[3];
    FlagAndSize(h, b0, (b1 * 0x100 + b2) * 0x100 + b3);
    LowByte((b0 * 0x100 + b1) * 0x100 + b2, b3);
    LowByte(b0 * 0x100 + b1, b2);
    LowByte(b0, b1);
    assert HeaderWord(h) == (if IsLast(h) then LAST_FRAGMENT_BIT else 0) + PayloadSize(h);
  }

  // -------------------------------------------------------------- the sender

  datatype Fragment = Fragment(last: bool, data: Bytes)

  /** A record as it appears on the wire: only the final fragment is flagged last. */
  predicate WellFormed(fs: seq<Fragment>) {
    && |fs| > 0
    && forall i :: 0 <= i < |fs| ==> |fs[i].data| <= MAX_FRAGMENT_SIZE && (fs[i].last <==> i == |fs| - 1)
  }

  function FragmentBytes(f: Fragment): Bytes
    requires |f.data| <= MAX_FRAGMENT_SIZE
  {
    Header(f.last, |f.data|) + f.data
  }

  function Wire(fs: seq<Fragment>): Bytes
    requires forall f :: f in fs ==> |f.data| <= MAX_FRAGMENT_SIZE
  {
    if fs == [] then [] else FragmentBytes(fs[0]) + Wire(fs[1..])
  }

  function Payload(fs: seq<Fragment>): Bytes {
    if fs == [] then [] else fs[0].data + Payload(fs[1..])
  }

  /** The fragments the sender cuts a record into. */
  function Fragments(record: Bytes): (fs: seq<Fragment>)
    requires record != []
    ensures WellFormed(fs)
    ensures forall f :: f in fs ==> 0 < |f.data|
    ensures Payload(fs) == record
    decreases |record|
  {
    if |record| <= MAX_FRAGMENT_SIZE then
      assert Payload([Fragment(true, record)][1..]) == [];
      [Fragment(true, record)]
    else
      var head := Fragment(false, record[..MAX_FRAGMENT_SIZE]);
      var tail := Fragments(record[MAX_FRAGMENT_SIZE..]);
      assert ([head] + tail)[1..] == tail;
      [head] + tail
  }

  /** Everything the sender writes for a record; nothing for an empty one. */
  function Encode(record: Bytes): Bytes {
    if record == [] then [] else Wire(Fragments(record))
  }

  // ------------------------------------------------------------ the receiver

  /** The fields of a receiving context that a read updates; None is a buffer that is NULL. */
  datatype Rm = Rm(
    accumulated: Option<Bytes>, header: Bytes, isLast: bool,
    expected: nat, payload: Bytes, fullyReceived: bool)
  {
    /** The payloads accumulated so far. */
    function Saved(): Bytes { BufferBytes(accumulated) }

    /** The fragment being received has its header and all of its payload. */
    predicate FragmentComplete() { |header| == HEADER_SIZE && |payload| == expected }

    /** Saving the fragment would resize an allocated buffer to no bytes, which gives NULL. */
    predicate CannotSave() { FragmentComplete() && accumulated == Some([]) && payload == [] }

    predicate Valid() {
      && |header| <= HEADER_SIZE && |payload| <= expected
      && (|header| < HEADER_SIZE ==> payload == [])
      && (fullyReceived ==> FragmentComplete() && isLast)
    }
  }

  function BufferBytes(buffer: Option<Bytes>): Bytes { if buffer.Some? then buffer.value else [] }

  function Fresh(accumulated: Option<Bytes>): Rm { Rm(accumulated, [], false, 0, [], false) }

  const INITIAL := Fresh(None)

  /**
   Saves the payload of a complete fragment, then stops or resets for the next fragment.
   A buffer that cannot be resized is gone.
   */
  function Flush(s: Rm): Rm {
    if s.CannotSave() then s.(accumulated := None)
    else
      var acc := Some(s.Saved() + s.payload);
      if s.isLast then s.(accumulated := acc, fullyReceived := true) else Fresh(acc)
  }

  function TakeHeader(s: Rm, bs: Bytes): Rm
    requires |s.header| + |bs| <= HEADER_SIZE
  {
    var h := s.header + bs;
    if |h| == HEADER_SIZE
    then s.(header := h, isLast := IsLast(h), expected := PayloadSize(h))
    else s.(header := h)
  }

  function TakePayload(s: Rm, bs: Bytes): Rm {
    var s' := s.(payload := s.payload + bs);
    if s'.FragmentComplete() then Flush(s') else s'
  }

  /** The effect of one byte on a fragment that still lacks bytes. */
  function Absorb(s: Rm, b: Byte): Rm {
    if |s.header| < HEADER_SIZE then TakeHeader(s, [b]) else TakePayload(s, [b])
  }

  /** The new state, the bytes left unprocessed, and whether a fragment could not be saved. */
  datatype Fed = Fed(rm: Rm, rest: Bytes, failed: bool) {
    predicate Stopped() { failed || rm.fullyReceived }
  }

  /**
   The receiver one byte at a time.  A fragment of length zero is noticed only when another
   byte is there, and nothing is processed after the record is complete or a failure.
   */
  function Feed(s: Rm, bs: Bytes): Fed
    decreases |bs|, if s.FragmentComplete() then 1 else 0
  {
    if bs == [] then Fed(s, [], false)
    else if s.FragmentComplete() then
      var s' := Flush(s);
      if s.CannotSave() || s'.fullyReceived then Fed(s', bs, s.CannotSave()) else Feed(s', bs)
    else
      var s' := Absorb(s, bs[0]);
      if s'.fullyReceived then Fed(s', bs[1..], false) else Feed(s', bs[1..])
  }

  lemma TakeHeaderTwice(s: Rm, a: Bytes, b: Bytes)
    requires |s.header| + |a| < HEADER_SIZE && |s.header| + |a| + |b| <= HEADER_SIZE
    ensures TakeHeader(TakeHeader(s, a), b) == TakeHeader(s, a + b)
  {
    assert s.header + a + b == s.header + (a + b);
  }

  lemma {:induction false} FeedHeaderBulk(s: Rm, bs: Bytes, n: nat)
    requires n <= |bs| && |s.header| + n <= HEADER_SIZE && |s.header| < HEADER_SIZE && !s.fullyReceived
    ensures Feed(s, bs) == Feed(TakeHeader(s, bs[..n]), bs[n..])
    decreases n
  {
    if n == 0 {
      assert bs[n..] == bs && s.header + bs[..n] == s.header;
    } else if n == 1 {
      assert bs[..1] == [bs[0]];
    } else {
      FeedHeaderBulk(TakeHeader(s, [bs[0]]), bs[1..], n - 1);
      assert bs[1..][n - 1..] == bs[n..];
      assert [bs[0]] + bs[1..][..n - 1] == bs[..n];
      TakeHeaderTwice(s, [bs[0]], bs[1..][..n - 1]);
    }
  }

  lemma {:induction false} FeedPayloadBulk(s: Rm, bs: Bytes, n: nat)
    requires 0 < n <= |bs| && |s.header| == HEADER_SIZE && |s.payload| + n <= s.expected && !s.fullyReceived
    ensures var s' := TakePayload(s, bs[..n]);
            Feed(s, bs) == if s'.fullyReceived then Fed(s', bs[n..], false) else Feed(s', bs[n..])
    decreases n
  {
    var s' := TakePayload(s, bs[..1]);
    assert bs[..1] == [bs[0]];
    if n > 1 {
      assert s'.header == s.header && Feed(s, bs) == Feed(s', bs[1..]);
      FeedPayloadBulk(s', bs[1..], n - 1);
      assert bs[1..][..n - 1] == bs[1..n] && bs[1..][n - 1..] == bs[n..];
      assert s.payload + bs[..1] + bs[1..n] == s.payload + bs[..n];
    }
  }

  /** One turn of the receive loop: the piece of the input it takes, as large as it comes. */
  function Piece(s: Rm, bs: Bytes): (k: nat)
    requires s.Valid()
    ensures k <= |bs|
  {
    if |s.header| < HEADER_SIZE then Min(HEADER_SIZE - |s.header|, |bs|)
    else Min(s.expected - |s.payload|, |bs|)
  }

  function Turn(s: Rm, piece: Bytes): Rm
    requires s.Valid() && piece == piece[..Piece(s, piece)]
  {
    if |s.header| < HEADER_SIZE then TakeHeader(s, piece) else TakePayload(s, piece)
  }

  lemma TurnIsFeed(s: Rm, bs: Bytes)
    requires s.Valid() && bs != []
    ensures var k := Piece(s, bs); var s' := Turn(s, bs[..k]);
            && s'.Valid()
            && Feed(s, bs) == (if s.CannotSave() || s'.fullyReceived then Fed(s', bs[k..], s.CannotSave())
                               else Feed(s', bs[k..]))
            && (k > 0 || s.CannotSave() || s'.fullyReceived || (s.FragmentComplete() && !s'.FragmentComplete()))
  {
    var k := Piece(s, bs);
    if |s.header| < HEADER_SIZE {
      FeedHeaderBulk(s, bs, k);
    } else if |s.payload| < s.expected {
      FeedPayloadBulk(s, bs, k);
    } else {
      assert s.payload + bs[..k] == s.payload;
      assert bs[k..] == bs;
    }
  }

  /** Cutting the input anywhere changes nothing, zero-length fragments included. */
  lemma {:induction false} FeedAppend(s: Rm, a: Bytes, b: Bytes)
    requires !s.fullyReceived
    ensures var f := Feed(s, a);
            if f.Stopped() then Feed(s, a + b) == f.(rest := f.rest + b)
            else f.rest == [] && Feed(s, a + b) == Feed(f.rm, b)
    decreases |a|, if s.FragmentComplete() then 1 else 0
  {
    if a == [] {
      assert a + b == b;
    } else {
      assert (a + b)[1..] == a[1..] + b;
      if s.FragmentComplete() {
        var s' := Flush(s);
        if !s.CannotSave() && !s'.fullyReceived { FeedAppend(s', a, b); }
      } else {
        var s' := Absorb(s, a[0]);
        if !s'.fullyReceived { FeedAppend(s', a[1..], b); }
      }
    }
  }

  lemma {:induction false} FeedKeepsValid(s: Rm, bs: Bytes)
    requires s.Valid()
    ensures Feed(s, bs).rm.Valid()
    decreases |bs|, if s.FragmentComplete() then 1 else 0
  {
    if bs != [] {
      if s.FragmentComplete() {
        var s' := Flush(s);
        if !s.CannotSave() && !s'.fullyReceived { FeedKeepsValid(s', bs); }
      } else {
        var s' := Absorb(s, bs[0]);
        if !s'.fullyReceived { FeedKeepsValid(s', bs[1..]); }
      }
    }
  }

  // -------------------------------------------- what the receiver makes of a record

  /** The state after the header of a fragment, before any of its payload. */
  function AfterHeader(accumulated: Option<Bytes>, f: Fragment): Rm
    requires |f.data| <= MAX_FRAGMENT_SIZE
  {
    Rm(accumulated, Header(f.last, |f.data|), f.last, |f.data|, [], false)
  }

  lemma FeedFragment(acc: Option<Bytes>, f: Fragment, rest: Bytes)
    requires |f.data| <= MAX_FRAGMENT_SIZE
    ensures var next := if f.data == [] then AfterHeader(acc, f)
                        else Flush(AfterHeader(acc, f).(payload := f.data));
            Feed(Fresh(acc), FragmentBytes(f) + rest) ==
            if next.fullyReceived then Fed(next, rest, false) else Feed(next, rest)
  {
    var bs, h := FragmentBytes(f) + rest, Header(f.last, |f.data|);
    HeaderDecodes(f.last, |f.data|);
    FeedHeaderBulk(Fresh(acc), bs, HEADER_SIZE);
    assert bs[..HEADER_SIZE] == h && [] + h == h;
    assert bs[HEADER_SIZE..] == f.data + rest;
    if f.data == [] {
      assert f.data + rest == rest;
    } else {
      FeedPayloadBulk(AfterHeader(acc, f), f.data + rest, |f.data|);
      assert (f.data + rest)[..|f.data|] == f.data && [] + f.data == f.data;
      assert (f.data + rest)[|f.data|..] == rest;
    }
  }

  /** A fragment that is not the last joins the others, once another byte is there. */
  lemma FeedOverFragment(acc: Option<Bytes>, f: Fragment, rest: Bytes)
    requires |f.data| <= MAX_FRAGMENT_SIZE && !f.last && rest != []
    requires acc != Some([]) || f.data != []
    ensures Feed(Fresh(acc), FragmentBytes(f) + rest) == Feed(Fresh(Some(BufferBytes(acc) + f.data)), rest)
  {
    FeedFragment(acc, f, rest);
  }

  /** Two empty fragments come before any data: the second cannot be saved. */
  predicate StartsEmptyTwice(acc: Option<Bytes>, fs: seq<Fragment>) {
    match acc
    case None => |fs| >= 2 && fs[0].data == [] && fs[1].data == []
    case Some(bytes) => bytes == [] && |fs| >= 1 && fs[0].data == []
  }

  /** The record is received to its last byte, and complete exactly when its last fragment carries data. */
  predicate Gathers(acc: Option<Bytes>, fs: seq<Fragment>, f: Fed)
    requires |fs| > 0
  {
    && f.rest == [] && !f.failed
    && f.rm.isLast && f.rm.FragmentComplete() && f.rm.Saved() == BufferBytes(acc) + Payload(fs)
    && (f.rm.fullyReceived <==> fs[|fs| - 1].data != [])
    && (if f.rm.fullyReceived then f.rm.accumulated.Some? else !f.rm.CannotSave())
  }

  lemma FeedLastFragment(acc: Option<Bytes>, f: Fragment)
    requires |f.data| <= MAX_FRAGMENT_SIZE && f.last && (acc != Some([]) || f.data != [])
    ensures Gathers(acc, [f], Feed(Fresh(acc), FragmentBytes(f)))
  {
    FeedFragment(acc, f, []);
    assert FragmentBytes(f) + [] == FragmentBytes(f);
    assert Payload([f]) == f.data + [] == f.data;
    assert f.data == [] ==> BufferBytes(acc) + f.data == BufferBytes(acc);
  }

  /** Every well-formed record that does not start with two empty fragments is gathered. */
  lemma {:induction false} FeedWire(acc: Option<Bytes>, fs: seq<Fragment>)
    requires WellFormed(fs) && !StartsEmptyTwice(acc, fs)
    ensures Gathers(acc, fs, Feed(Fresh(acc), Wire(fs)))
    decreases |fs|
  {
    var f, tail, bytes := fs[0], fs[1..], BufferBytes(acc);
    if tail == [] {
      FeedLastFragment(acc, f);
      assert fs == [f] && Wire(fs) == FragmentBytes(f) + [] == FragmentBytes(f);
    } else {
      assert forall i :: 0 <= i < |tail| ==> tail[i] == fs[i + 1];
      assert Wire(tail) != [];
      FeedOverFragment(acc, f, Wire(tail));
      FeedWire(Some(bytes + f.data), tail);
      assert bytes + f.data + Payload(tail) == bytes + (f.data + Payload(tail));
    }
  }

  /** A record that does start so is never complete, and fails at its third fragment or at bytes that follow. */
  lemma FeedEmptyStart(fs: seq<Fragment>, more: Bytes)
    requires WellFormed(fs) && StartsEmptyTwice(None, fs)
    ensures var f := Feed(INITIAL, Wire(fs) + more);
            && !f.rm.fullyReceived
            && (f.failed <==> |fs| > 2 || more != [])
            && (if f.failed then f.rm.accumulated == None && |f.rest| == |Wire(fs[2..])| + |more|
                else f.rm.accumulated == Some([]) && f.rest == [])
  {
    var first, second, tail := fs[0], fs[1], fs[2..];
    var rest := Wire(tail) + more;
    assert Wire(fs) == FragmentBytes(first) + (FragmentBytes(second) + Wire(fs[1..][1..])) && fs[1..][1..] == tail;
    assert Wire(fs) + more == FragmentBytes(first) + (FragmentBytes(second) + rest);
    FeedFragment(None, first, FragmentBytes(second) + rest);
    var none: Bytes := [];
    assert !first.last && none + none == none;
    assert Flush(AfterHeader(None, first)) == Fresh(Some(none));
    FeedFragment(Some([]), second, rest);
    assert tail != [] ==> Wire(tail) != [];
    assert AfterHeader(Some([]), second).CannotSave();
  }

  /** A receiver that has read all but `remaining` of `whole` since it was created. */
  predicate HasRead(s: Rm, whole: Bytes, remaining: Bytes) {
    && |remaining| <= |whole|
    && var n := |whole| - |remaining|;
    && whole[n..] == remaining
    && Feed(INITIAL, whole[..n]) == Fed(s, [], false)
  }

  lemma HasReadNothing(whole: Bytes)
    ensures HasRead(INITIAL, whole, whole)
  {
    assert whole[0..] == whole && whole[..0] == [];
  }

  /** `whole` is exactly one record, complete at its last byte. */
  predicate Completes(whole: Bytes, record: Bytes) {
    var f := Feed(INITIAL, whole);
    f.rm.fullyReceived && f.rest == [] && !f.failed && f.rm.accumulated == Some(record)
  }

  lemma EncodeCompletes(record: Bytes)
    requires record != []
    ensures Completes(Encode(record), record)
  {
    FeedWire(None, Fragments(record));
    assert [] + record == record;
  }

  lemma CompleteOnlyAtLastByte(whole: Bytes, record: Bytes, s: Rm, remaining: Bytes)
    requires Completes(whole, record) && HasRead(s, whole, remaining)
    ensures s.fullyReceived <==> remaining == []
    ensures s.fullyReceived ==> s.accumulated == Some(record)
  {
    var n := |whole| - |remaining|;
    assert whole[..n] + whole[n..] == whole;
    FeedAppend(INITIAL, whole[..n], whole[n..]);
    if remaining == [] { assert whole[..n] == whole; }
  }

  lemma FeedWithinRecord(whole: Bytes, record: Bytes, s: Rm, got: Bytes, left: Bytes)
    requires Completes(whole, record) && HasRead(s, whole, got + left) && !s.fullyReceived
    ensures !Feed(s, got).failed && Feed(s, got).rest == [] && HasRead(Feed(s, got).rm, whole, left)
  {
    var n, m := |whole| - |got + left|, |whole| - |left|;
    assert whole[m..] == whole[n..][|got|..] == left;
    assert whole[..m] == whole[..n] + got;
    FeedAppend(INITIAL, whole[..n], got);
    assert whole[..m] + left == whole;
    FeedAppend(INITIAL, whole[..m], left);
  }

  lemma EncodeNonEmpty(record: Bytes)
    requires record != []
    ensures Encode(record) != []
  {
    assert |FragmentBytes(Fragments(record)[0])| >= HEADER_SIZE;
  }

  // --------------------------------------------------- reading what is available

  datatype Received = Received(rm: Rm, code: nat, used: nat)

  /**
   Each element of `chunks` is what one read of the stream yields; when they are
   used up the stream has nothing more for now.  Code 2: a read of no bytes; code 3: a
   fragment that cannot be saved; code 4: bytes follow the record.
   */
  function Receive(s: Rm, chunks: seq<Bytes>): Received
    decreases |chunks|
  {
    if chunks == [] then Received(s, 0, 0)
    else if chunks[0] == [] then Received(s, 2, 1)
    else
      var f := Feed(s, chunks[0]);
      if f.failed then Received(f.rm, 3, 1)
      else if f.rm.fullyReceived then Received(f.rm, if f.rest != [] then 4 else 0, 1)
      else
        var r := Receive(f.rm, chunks[1..]);
        r.(used := r.used + 1)
  }

  predicate NonEmptyReads(chunks: seq<Bytes>) { forall i :: 0 <= i < |chunks| ==> chunks[i] != [] }

  /** How the bytes are cut into reads does not matter to the state that results. */
  lemma {:induction false} ReceiveIsFeed(s: Rm, chunks: seq<Bytes>)
    requires !s.fullyReceived && NonEmptyReads(chunks)
    ensures var r, f := Receive(s, chunks), Feed(s, Concat(chunks));
            && r.rm == f.rm && r.used <= |chunks|
            && (r.code == 3 <==> f.failed)
            && (r.code != 3 ==> (r.code == 0 <==> f.rest == Concat(chunks[r.used..])))
            && (r.code == 0 || r.code == 3 || r.code == 4)
            && (!f.Stopped() ==> r.code == 0 && r.used == |chunks|)
    decreases |chunks|
  {
    if chunks != [] {
      var head, tail := chunks[0], chunks[1..];
      FeedAppend(s, head, Concat(tail));
      var f := Feed(s, head);
      if !f.Stopped() {
        ReceiveIsFeed(f.rm, tail);
        var r := Receive(f.rm, tail);
        assert tail[r.used..] == chunks[r.used + 1..];
      } else {
        assert chunks[1..] == tail;
        assert |f.rest + Concat(tail)| == |f.rest| + |Concat(tail)|;
      }
    }
  }

  /**
   Reads are taken until one fails, completes the record or is empty; `k` of them leave the
   record unfinished.
   */
  lemma {:induction false} ReceiveExactly(s: Rm, chunks: seq<Bytes>, k: nat)
    requires !s.fullyReceived && k <= |chunks| && NonEmptyReads(chunks[..k])
    requires !Feed(s, Concat(chunks[..k])).Stopped()
    ensures var rm := Feed(s, Concat(chunks[..k])).rm;
            && (k == |chunks| ==> Receive(s, chunks) == Received(rm, 0, k))
            && (k < |chunks| && chunks[k] == [] ==> Receive(s, chunks) == Received(rm, 2, k + 1))
            && (k < |chunks| && chunks[k] != [] ==>
                  var f := Feed(rm, chunks[k]);
                  && (f.failed ==> Receive(s, chunks) == Received(f.rm, 3, k + 1))
                  && (!f.failed && f.rm.fullyReceived ==>
                        Receive(s, chunks) == Received(f.rm, if f.rest == [] then 0 else 4, k + 1)))
    decreases k
  {
    if k > 0 {
      var head, tail := chunks[0], chunks[1..];
      assert chunks[..k][0] == head && chunks[..k][1..] == tail[..k - 1];
      FeedAppend(s, head, Concat(tail[..k - 1]));
      ReceiveExactly(Feed(s, head).rm, tail, k - 1);
    }
  }

  lemma ChunkingIndependent(s: Rm, chunks1: seq<Bytes>, chunks2: seq<Bytes>)
    requires !s.fullyReceived && NonEmptyReads(chunks1) && NonEmptyReads(chunks2)
    requires Concat(chunks1) == Concat(chunks2)
    ensures Receive(s, chunks1).rm == Receive(s, chunks2).rm
    ensures Receive(s, chunks1).code == 3 <==> Receive(s, chunks2).code == 3
  {
    ReceiveIsFeed(s, chunks1);
    ReceiveIsFeed(s, chunks2);
  }

  /** Reads that stay within one record never fail, never overrun it and are all used. */
  lemma ReceiveWithinRecord(whole: Bytes, record: Bytes, s: Rm, chunks: seq<Bytes>, left: Bytes)
    requires Completes(whole, record) && HasRead(s, whole, Concat(chunks) + left)
    requires !s.fullyReceived && NonEmptyReads(chunks)
    ensures var r := Receive(s, chunks);
            && r.code == 0 && r.used == |chunks| && HasRead(r.rm, whole, left)
            && (r.rm.fullyReceived <==> left == [])
            && (r.rm.fullyReceived ==> r.rm.accumulated == Some(record))
  {
    FeedWithinRecord(whole, record, s, Concat(chunks), left);
    ReceiveIsFeed(s, chunks);
    ReceiveStopsAtEnd(s, chunks);
    CompleteOnlyAtLastByte(whole, record, Feed(s, Concat(chunks)).rm, left);
  }

  /** Any cut of the sender's output: complete after the last read, not after fewer. */
  lemma RoundTrip(record: Bytes, chunks: seq<Bytes>, k: nat)
    requires record != [] && NonEmptyReads(chunks) && Concat(chunks) == Encode(record)
    requires k <= |chunks|
    ensures var r := Receive(INITIAL, chunks[..k]);
            && r.code == 0 && r.used == k
            && (r.rm.fullyReceived <==> k == |chunks|)
            && (r.rm.fullyReceived ==> r.rm.accumulated == Some(record))
  {
    var whole, left := Encode(record), Concat(chunks[k..]);
    EncodeCompletes(record);
    HasReadNothing(whole);
    ConcatAppend(chunks[..k], chunks[k..]);
    assert chunks[..k] + chunks[k..] == chunks;
    ReceiveWithinRecord(whole, record, INITIAL, chunks[..k], left);
    if k < |chunks| { assert |left| >= |chunks[k..][0]| > 0; }
  }

  /** A record that ends with the last read is not noticed earlier. */
  lemma {:induction false} ReceiveStopsAtEnd(s: Rm, chunks: seq<Bytes>)
    requires !s.fullyReceived && NonEmptyReads(chunks)
    requires Feed(s, Concat(chunks)).rest == [] && !Feed(s, Concat(chunks)).failed
    ensures Receive(s, chunks).code == 0 && Receive(s, chunks).used == |chunks|
    decreases |chunks|
  {
    if chunks != [] {
      var head, tail := chunks[0], chunks[1..];
      FeedAppend(s, head, Concat(tail));
      var f := Feed(s, head);
      if f.rm.fullyReceived {
        assert f.rest + Concat(tail) == [];
      } else {
        ReceiveStopsAtEnd(f.rm, tail);
      }
    }
  }
}
