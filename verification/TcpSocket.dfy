/**
 The loop that fills a buffer from a TCP socket, and the receipt of a record on top of it.  As
 in the send loop, each call's signed result is kept in a size_t: a failing call moves the
 counter back, or ends the loop with success.
 */
module TcpSocket {
  import opened Common
  import opened RecordMarking
  import opened TransferLoop
  import opened TcpRecordMarking

  // ------------------------------------------------------------- filling a buffer

  /** What a call reports: an error, or the number of bytes it hands over; none once the peer has closed. */
  function HandedOver(result: WriteResult, room: nat, available: nat): WriteResult {
    Min(result, Min(room, available))
  }

  function Overwritten(buffer: Bytes, at: nat, data: Bytes): (r: Bytes)
    requires at + |data| <= |buffer|
    ensures |r| == |buffer|
  {
    buffer[..at] + data + buffer[at + |data|..]
  }

  /** The code returned, or None when a call never returns; the buffer, the bytes not received, the results not used. */
  datatype Reception = Reception(code: Option<nat>, buffer: Bytes, incoming: Bytes, left: seq<WriteResult>)

  /** The loop from counter `total` on; `results` are what the next calls report, if they return. */
  function ReceiveFrom(buffer: Bytes, total: nat, incoming: Bytes, results: seq<WriteResult>): (r: Reception)
    requires |buffer| < 0x8000_0000_0000_0000
    ensures |r.buffer| == |buffer| && |r.left| <= |results|
    ensures r.code == Some(0) && total < |buffer| ==> |r.left| < |results|
    decreases |results|
  {
    if total >= |buffer| then Reception(Some(0), buffer, incoming, results)
    else if results == [] then Reception(None, buffer, incoming, [])
    else
      var r := HandedOver(results[0], |buffer| - total, |incoming|);
      if r == 0 then Reception(Some(2), buffer, incoming, results[1..])
      else if r < 0 then ReceiveFrom(buffer, Advance(total, r), incoming, results[1..])
      else ReceiveFrom(Overwritten(buffer, total, incoming[..r]), total + r, incoming[r..], results[1..])
  }

  /** Success is reported, and the buffer holds the next `n` bytes. */
  predicate FilledFrom(incoming: Bytes, n: nat, r: Reception) {
    n <= |incoming| && r.code == Some(0) && r.buffer == incoming[..n] && r.incoming == incoming[n..]
  }

  /** Every call until the buffer is full hands over at least one byte. */
  predicate EveryRecvHandsOver(n: nat, total: nat, available: nat, results: seq<WriteResult>)
    decreases |results|
  {
    || total >= n
    || (&& results != []
        && var r := HandedOver(results[0], n - total, available);
        && r > 0 && EveryRecvHandsOver(n, total + r, available - r, results[1..]))
  }

  lemma {:induction false} FillsFrom(buffer: Bytes, total: nat, whole: Bytes, results: seq<WriteResult>)
    requires |buffer| < 0x8000_0000_0000_0000 && total <= |buffer| && total <= |whole|
    requires buffer[..total] == whole[..total]
    requires EveryRecvHandsOver(|buffer|, total, |whole| - total, results)
    ensures FilledFrom(whole, |buffer|, ReceiveFrom(buffer, total, whole[total..], results))
    decreases |results|
  {
    if total < |buffer| {
      var incoming := whole[total..];
      var r := HandedOver(results[0], |buffer| - total, |incoming|);
      var buffer' := Overwritten(buffer, total, incoming[..r]);
      assert buffer'[..total + r] == whole[..total + r] && incoming[r..] == whole[total + r..];
      FillsFrom(buffer', total + r, whole, results[1..]);
    } else {
      assert buffer[..total] == buffer;
    }
  }

  /** A buffer whose first `h` bytes are ones and the others zeros. */
  function Marked(n: nat, h: nat): (b: Bytes)
    ensures |b| == n && forall i :: 0 <= i < n ==> b[i] == if i < h then 1 else 0
  {
    seq(n, i => if i < h then 1 else 0)
  }

  function Max(a: nat, b: nat): nat { if a < b then b else a }

  /** The loop on ones arriving in a buffer of zeros: how much of it is filled, and how much is left. */
  datatype Coverage = Coverage(code: Option<nat>, filled: nat, left: nat)

  function Cover(n: nat, h: nat, total: nat, m: nat, results: seq<WriteResult>): Coverage
    requires n < 0x8000_0000_0000_0000
    decreases |results|
  {
    if total >= n then Coverage(Some(0), h, m)
    else if results == [] then Coverage(None, h, m)
    else
      var r := HandedOver(results[0], n - total, m);
      if r == 0 then Coverage(Some(2), h, m)
      else if r < 0 then Cover(n, h, Advance(total, r), m, results[1..])
      else Cover(n, Max(h, total + r), total + r, m - r, results[1..])
  }

  /** Only ones up to `h`, and zeros from there on. */
  predicate OnesThenZeros(b: Bytes, h: nat) { forall i :: 0 <= i < |b| ==> b[i] == if i < h then 1 else 0 }

  lemma OnesExtend(buffer: Bytes, h: nat, total: nat, incoming: Bytes, r: nat)
    requires total <= h <= |buffer| && r <= |incoming| && total + r <= |buffer|
    requires OnesThenZeros(buffer, h) && OnesThenZeros(incoming, |incoming|)
    ensures OnesThenZeros(Overwritten(buffer, total, incoming[..r]), Max(h, total + r))
    ensures OnesThenZeros(incoming[r..], |incoming| - r)
  {
  }

  predicate Covers(r: Reception, c: Coverage) {
    c.filled <= |r.buffer| && r.code == c.code && OnesThenZeros(r.buffer, c.filled) && |r.incoming| == c.left
  }

  lemma {:induction false} CoverIsReceive(buffer: Bytes, h: nat, total: nat, incoming: Bytes, results: seq<WriteResult>)
    requires |buffer| < 0x8000_0000_0000_0000 && h <= |buffer| && (total < |buffer| ==> total <= h)
    requires OnesThenZeros(buffer, h) && OnesThenZeros(incoming, |incoming|)
    ensures Covers(ReceiveFrom(buffer, total, incoming, results), Cover(|buffer|, h, total, |incoming|, results))
    decreases |results|
  {
    if total < |buffer| && results != [] {
      var r := HandedOver(results[0], |buffer| - total, |incoming|);
      if r > 0 {
        var buffer' := Overwritten(buffer, total, incoming[..r]);
        OnesExtend(buffer, h, total, incoming, r);
        CoverIsReceive(buffer', Max(h, total + r), total + r, incoming[r..], results[1..]);
      } else if r < 0 {
        CoverIsReceive(buffer, h, Advance(total, r), incoming, results[1..]);
      }
    }
  }

  /** Once the counter lags behind what is filled, a full buffer has taken too many bytes. */
  lemma {:induction false} LaggingTakesTooMany(n: nat, h: nat, total: nat, m: nat, results: seq<WriteResult>)
    requires n < 0x8000_0000_0000_0000 && total <= h <= n && (h == n ==> total == n)
    ensures var c := Cover(n, h, total, m, results);
            c.code == Some(0) && c.filled == n ==> c.left + n - h + (if total < h then 1 else 0) <= m
    decreases |results|
  {
    if total < n && results != [] {
      var r := HandedOver(results[0], n - total, m);
      if r > 0 {
        LaggingTakesTooMany(n, Max(h, total + r), total + r, m - r, results[1..]);
      } else if r < 0 && Advance(total, r) < n {
        LaggingTakesTooMany(n, h, Advance(total, r), m, results[1..]);
      }
    }
  }

  /** If a call hands over nothing, the buffer is not filled, or not with the next bytes. */
  lemma {:induction false} NotFilled(n: nat, total: nat, m: nat, results: seq<WriteResult>)
    requires n < 0x8000_0000_0000_0000 && total <= n && !EveryRecvHandsOver(n, total, m, results)
    ensures var c := Cover(n, total, total, m, results);
            !(c.code == Some(0) && c.filled == n && c.left + n - total == m)
    decreases |results|
  {
    if results != [] {
      var r := HandedOver(results[0], n - total, m);
      if r > 0 {
        NotFilled(n, total + r, m - r, results[1..]);
      } else if r < 0 && Advance(total, r) < n {
        LaggingTakesTooMany(n, total, Advance(total, r), m, results[1..]);
      }
    }
  }

  /**
   Whatever arrives and whatever the buffer held, it holds the next `n` bytes and success is
   reported, if and only if every call hands over at least one byte.
   */
  lemma FilledExactly(n: nat, m: nat, results: seq<WriteResult>)
    requires n < 0x8000_0000_0000_0000
    ensures (forall buffer: Bytes, incoming: Bytes :: |buffer| == n && |incoming| == m ==>
               FilledFrom(incoming, n, ReceiveFrom(buffer, 0, incoming, results)))
            <==> EveryRecvHandsOver(n, 0, m, results)
  {
    if EveryRecvHandsOver(n, 0, m, results) {
      forall buffer: Bytes, incoming: Bytes | |buffer| == n && |incoming| == m
        ensures FilledFrom(incoming, n, ReceiveFrom(buffer, 0, incoming, results))
      {
        FillsFrom(buffer, 0, incoming, results);
        assert incoming[0..] == incoming;
      }
    } else {
      NotFilled(n, 0, m, results);
      var zeros, ones := Marked(n, 0), Marked(m, m);
      CoverIsReceive(zeros, 0, 0, ones, results);
      var c, r := Cover(n, 0, 0, m, results), ReceiveFrom(zeros, 0, ones, results);
      assert c.filled < n ==> r.buffer[c.filled] == 0;
      assert !FilledFrom(ones, n, r);
    }
  }

  /** A failing first call is success, with the buffer as it was and nothing received. */
  lemma FailedRecvIsSuccess(buffer: Bytes, incoming: Bytes, error: WriteResult)
    requires 0 < |buffer| < 0x8000_0000_0000_0000 && error < 0
    ensures ReceiveFrom(buffer, 0, incoming, [error]) == Reception(Some(0), buffer, incoming, [])
  {
    assert Advance(0, error) >= |buffer|;
  }

  /** A failing later call makes the next bytes overwrite some that were received. */
  lemma FailedRecvGoesBack(buffer: Bytes, total: nat, incoming: Bytes, error: WriteResult, rest: seq<WriteResult>)
    requires total < |buffer| < 0x8000_0000_0000_0000 && 0 - total <= error < 0
    ensures ReceiveFrom(buffer, total, incoming, [error] + rest)
         == ReceiveFrom(buffer, total + error, incoming, rest)
  {
    assert ([error] + rest)[1..] == rest;
  }

  // ----------------------------------------------------------------- a whole record

  /** What the `k`th piece of fresh memory holds before it is written. */
  type Memory = (nat, nat) -> Byte

  function FreshBytes(memory: Memory, k: nat, n: nat): (b: Bytes)
    ensures |b| == n
  {
    seq(n, i requires 0 <= i => memory(k, i))
  }

  /** The buffer returned, NULL when receiving fails; or a call that never returns. */
  datatype RecordReception = RecordReception(
    buffer: Option<Bytes>, blocked: bool, incoming: Bytes, left: seq<WriteResult>)

  /** Header and payload of each fragment up to the last; a failure returns NULL. */
  function ReceiveRecord(acc: Option<Bytes>, memory: Memory, k: nat, incoming: Bytes, results: seq<WriteResult>)
    : RecordReception
    decreases |results|, 0
  {
    var h := ReceiveFrom(FreshBytes(memory, k, HEADER_SIZE), 0, incoming, results);
    if h.code != Some(0) then RecordReception(None, h.code.None?, h.incoming, h.left)
    else AfterHeader(acc, memory, k, h.buffer, h.incoming, h.left)
  }

  /** The same from the payload on, with the `header` received. */
  function AfterHeader(acc: Option<Bytes>, memory: Memory, k: nat, header: Bytes, incoming: Bytes,
                       results: seq<WriteResult>): RecordReception
    requires |header| == HEADER_SIZE
    decreases |results|, 1
  {
    var d := ReceiveFrom(FreshBytes(memory, k + 1, PayloadSize(header)), 0, incoming, results);
    if d.code != Some(0) then RecordReception(None, d.code.None?, d.incoming, d.left)
    else if IsLast(header) then RecordReception(Grown(acc, d.buffer), false, d.incoming, d.left)
    else ReceiveRecord(Grown(acc, d.buffer), memory, k + 2, d.incoming, d.left)
  }

  /** The results that a buffer of `n` bytes leaves. */
  function LeftAfter(n: nat, total: nat, available: nat, results: seq<WriteResult>): (left: seq<WriteResult>)
    requires EveryRecvHandsOver(n, total, available, results)
    decreases |results|
  {
    if total >= n then results
    else
      var r := HandedOver(results[0], n - total, available);
      LeftAfter(n, total + r, available - r, results[1..])
  }

  lemma {:induction false} LeavesTheRest(buffer: Bytes, total: nat, incoming: Bytes, results: seq<WriteResult>)
    requires |buffer| < 0x8000_0000_0000_0000 && EveryRecvHandsOver(|buffer|, total, |incoming|, results)
    ensures ReceiveFrom(buffer, total, incoming, results).left == LeftAfter(|buffer|, total, |incoming|, results)
    decreases |results|
  {
    if total < |buffer| {
      var r := HandedOver(results[0], |buffer| - total, |incoming|);
      LeavesTheRest(Overwritten(buffer, total, incoming[..r]), total + r, incoming[r..], results[1..]);
    }
  }

  /** Every call until the record is complete hands over at least one byte. */
  predicate RecordHandedOver(input: Bytes, results: seq<WriteResult>)
    decreases |input|
  {
    && |input| >= HEADER_SIZE && EveryRecvHandsOver(HEADER_SIZE, 0, |input|, results)
    && var left, size := LeftAfter(HEADER_SIZE, 0, |input|, results), PayloadSize(input[..HEADER_SIZE]);
    && |input| >= HEADER_SIZE + size && EveryRecvHandsOver(size, 0, |input| - HEADER_SIZE, left)
    && (IsLast(input[..HEADER_SIZE]) ||
        RecordHandedOver(input[HEADER_SIZE + size..], LeftAfter(size, 0, |input| - HEADER_SIZE, left)))
  }

  lemma HeaderFirst(acc: Option<Bytes>, memory: Memory, k: nat, input: Bytes, results: seq<WriteResult>)
    requires |input| >= HEADER_SIZE && EveryRecvHandsOver(HEADER_SIZE, 0, |input|, results)
    ensures ReceiveRecord(acc, memory, k, input, results)
         == AfterHeader(acc, memory, k, input[..HEADER_SIZE], input[HEADER_SIZE..],
                        LeftAfter(HEADER_SIZE, 0, |input|, results))
  {
    BufferIsFilled(FreshBytes(memory, k, HEADER_SIZE), input, results);
  }

  /** Then the record is that of the bytes of the connection, whatever fresh memory held. */
  lemma {:induction false} RecordIsParsed(acc: Option<Bytes>, memory: Memory, k: nat, input: Bytes,
                                          results: seq<WriteResult>)
    requires RecordHandedOver(input, results)
    ensures var p, r := ParseRecord(acc, input), ReceiveRecord(acc, memory, k, input, results);
            p.Got? && r.buffer == p.buffer && r.incoming == p.rest && !r.blocked
    decreases |input|
  {
    var size, left := PayloadSize(input[..HEADER_SIZE]), LeftAfter(HEADER_SIZE, 0, |input|, results);
    var rest, end := input[HEADER_SIZE..], HEADER_SIZE + size;
    HeaderFirst(acc, memory, k, input, results);
    BufferIsFilled(FreshBytes(memory, k + 1, size), rest, left);
    assert rest[..size] == input[HEADER_SIZE..end] && rest[size..] == input[end..];
    if !IsLast(input[..HEADER_SIZE]) {
      RecordIsParsed(Grown(acc, rest[..size]), memory, k + 2, rest[size..], LeftAfter(size, 0, |rest|, left));
    }
  }

  lemma BufferIsFilled(buffer: Bytes, incoming: Bytes, results: seq<WriteResult>)
    requires |buffer| < 0x8000_0000_0000_0000 && |buffer| <= |incoming|
    requires EveryRecvHandsOver(|buffer|, 0, |incoming|, results)
    ensures ReceiveFrom(buffer, 0, incoming, results)
         == Reception(Some(0), incoming[..|buffer|], incoming[|buffer|..], LeftAfter(|buffer|, 0, |incoming|, results))
  {
    FillsFrom(buffer, 0, incoming, results);
    LeavesTheRest(buffer, 0, incoming, results);
    assert incoming[0..] == incoming;
  }

  lemma {:induction false} AcceptingHandsOver(n: nat, total: nat, available: nat, results: seq<WriteResult>, extra: nat)
    requires total <= n && n - total <= available && Accepting(results, n - total + extra)
    ensures EveryRecvHandsOver(n, total, available, results)
    ensures Accepting(LeftAfter(n, total, available, results), extra)
    decreases |results|
  {
    if total < n {
      var r := HandedOver(results[0], n - total, available);
      AcceptingHandsOver(n, total + r, available - r, results[1..], extra);
    }
  }

  /** As many calls as there are bytes, none failing, suffice for a record that is there. */
  lemma {:induction false} AcceptingReceivesRecord(acc: Option<Bytes>, input: Bytes, results: seq<WriteResult>)
    requires ParseRecord(acc, input).Got? && Accepting(results, |input|)
    ensures RecordHandedOver(input, results)
    decreases |input|
  {
    var header, size := input[..HEADER_SIZE], PayloadSize(input[..HEADER_SIZE]);
    var end := HEADER_SIZE + size;
    AcceptingHandsOver(HEADER_SIZE, 0, |input|, results, |input| - HEADER_SIZE);
    AcceptingHandsOver(size, 0, |input| - HEADER_SIZE, LeftAfter(HEADER_SIZE, 0, |input|, results), |input| - end);
    if !IsLast(header) {
      AcceptingReceivesRecord(Grown(acc, input[HEADER_SIZE..end]), input[end..],
                              LeftAfter(size, 0, |input| - HEADER_SIZE, LeftAfter(HEADER_SIZE, 0, |input|, results)));
    }
  }

  /** A record out of nothing: a failing call and a header made of what the stack held. */
  lemma RecordOutOfNothing(memory: Memory, incoming: Bytes, error: WriteResult)
    requires error < 0 && FreshBytes(memory, 0, HEADER_SIZE) == Header(true, 0)
    ensures ReceiveRecord(None, memory, 0, incoming, [error]) == RecordReception(Some([]), false, incoming, [])
  {
    FailedRecvIsSuccess(Header(true, 0), incoming, error);
    HeaderDecodes(true, 0);
    var none: Bytes := [];
    assert FreshBytes(memory, 1, 0) == none && none + none == none;
  }

  /** Why a receipt ends early: no further call returns, or a call finds nothing to hand over. */
  predicate CutShort(blocked: bool, incoming: Bytes, results: seq<WriteResult>, left: seq<WriteResult>) {
    if blocked then left == [] else 0 in results || incoming == []
  }

  lemma {:induction false} HandsOverFits(n: nat, total: nat, available: nat, results: seq<WriteResult>)
    requires total <= n && NoneFails(results) && EveryRecvHandsOver(n, total, available, results)
    ensures n - total <= available && NoneFails(LeftAfter(n, total, available, results))
    ensures 0 in LeftAfter(n, total, available, results) ==> 0 in results
    decreases |results|
  {
    if total < n {
      var r := HandedOver(results[0], n - total, available);
      HandsOverFits(n, total + r, available - r, results[1..]);
    }
  }

  /** If no call fails, success is reported only when the buffer is full. */
  lemma {:induction false} NotHandedOver(buffer: Bytes, total: nat, incoming: Bytes, results: seq<WriteResult>)
    requires |buffer| < 0x8000_0000_0000_0000 && total <= |buffer| && NoneFails(results)
    requires !EveryRecvHandsOver(|buffer|, total, |incoming|, results)
    ensures var r := ReceiveFrom(buffer, total, incoming, results);
            && r.code == (if r.code.None? then None else Some(2))
            && CutShort(r.code.None?, r.incoming, results, r.left)
    decreases |results|
  {
    if results != [] {
      var r := HandedOver(results[0], |buffer| - total, |incoming|);
      if r > 0 {
        NotHandedOver(Overwritten(buffer, total, incoming[..r]), total + r, incoming[r..], results[1..]);
      }
    }
  }

  /** The first `k` bytes that arrive are in the buffer from `total` on, and only they have been taken. */
  predicate Took(buffer: Bytes, total: nat, incoming: Bytes, k: nat, r: Reception) {
    && total + k <= |buffer| && k <= |incoming|
    && r.buffer == Overwritten(buffer, total, incoming[..k]) && r.incoming == incoming[k..]
  }

  lemma TookMore(buffer: Bytes, total: nat, incoming: Bytes, n: nat, buffer': Bytes, k: nat, r: Reception)
    requires n <= |incoming| && total + n <= |buffer| && buffer' == Overwritten(buffer, total, incoming[..n])
    requires Took(buffer', total + n, incoming[n..], k, r)
    ensures Took(buffer, total, incoming, n + k, r)
  {
    assert incoming[n..][..k] == incoming[n..n + k];
  }

  lemma TookNothing(buffer: Bytes, total: nat, incoming: Bytes, r: Reception)
    requires total <= |buffer| && r.buffer == buffer && r.incoming == incoming
    ensures Took(buffer, total, incoming, 0, r)
  {
  }

  /** Whether the buffer is filled or not, what it has is a prefix of what was sent. */
  lemma {:induction false} ReceivedSoFar(buffer: Bytes, total: nat, incoming: Bytes, results: seq<WriteResult>)
    returns (k: nat)
    requires |buffer| < 0x8000_0000_0000_0000 && total <= |buffer| && NoneFails(results)
    ensures Took(buffer, total, incoming, k, ReceiveFrom(buffer, total, incoming, results))
    decreases |results|
  {
    var r := ReceiveFrom(buffer, total, incoming, results);
    var n := if results == [] then 0 else HandedOver(results[0], |buffer| - total, |incoming|);
    if total < |buffer| && n > 0 {
      var buffer' := Overwritten(buffer, total, incoming[..n]);
      k := ReceivedSoFar(buffer', total + n, incoming[n..], results[1..]);
      TookMore(buffer, total, incoming, n, buffer', k, r);
      k := n + k;
    } else {
      k := 0;
      TookNothing(buffer, total, incoming, r);
    }
  }

  /** If no call fails, the record returned is that of the bytes of the connection, or there is none. */
  lemma {:induction false} RecordExactly(acc: Option<Bytes>, memory: Memory, k: nat, input: Bytes,
                                         results: seq<WriteResult>)
    requires NoneFails(results)
    ensures var r := ReceiveRecord(acc, memory, k, input, results);
            if RecordHandedOver(input, results) then ParseRecord(acc, input) == Got(r.buffer, r.incoming) && !r.blocked
            else r.buffer == None && CutShort(r.blocked, r.incoming, results, r.left)
    decreases |input|
  {
    if RecordHandedOver(input, results) {
      RecordIsParsed(acc, memory, k, input, results);
    } else if !EveryRecvHandsOver(HEADER_SIZE, 0, |input|, results) {
      NotHandedOver(FreshBytes(memory, k, HEADER_SIZE), 0, input, results);
    } else {
      HandsOverFits(HEADER_SIZE, 0, |input|, results);
      HeaderFirst(acc, memory, k, input, results);
      RecordCutInPayload(acc, memory, k, input, results, input[HEADER_SIZE..],
                         LeftAfter(HEADER_SIZE, 0, |input|, results));
    }
  }

  lemma {:induction false} RecordCutInPayload(acc: Option<Bytes>, memory: Memory, k: nat, input: Bytes,
                                              results: seq<WriteResult>, rest: Bytes, left: seq<WriteResult>)
    requires NoneFails(results) && |input| >= HEADER_SIZE && EveryRecvHandsOver(HEADER_SIZE, 0, |input|, results)
    requires rest == input[HEADER_SIZE..] && left == LeftAfter(HEADER_SIZE, 0, |input|, results) && NoneFails(left)
    requires !RecordHandedOver(input, results)
    ensures var r := AfterHeader(acc, memory, k, input[..HEADER_SIZE], rest, left);
            r.buffer == None && CutShort(r.blocked, r.incoming, left, r.left)
    decreases |input|, 0
  {
    var size := PayloadSize(input[..HEADER_SIZE]);
    var buffer := FreshBytes(memory, k + 1, size);
    if !EveryRecvHandsOver(size, 0, |rest|, left) {
      NotHandedOver(buffer, 0, rest, left);
    } else {
      HandsOverFits(size, 0, |rest|, left);
      BufferIsFilled(buffer, rest, left);
      var left' := LeftAfter(size, 0, |rest|, left);
      CutLater(input, results, size, left, left');
      assert input[HEADER_SIZE + size..] == rest[size..];
      RecordExactly(Grown(acc, rest[..size]), memory, k + 2, rest[size..], left');
    }
  }

  lemma CutLater(input: Bytes, results: seq<WriteResult>, size: nat, left: seq<WriteResult>, left': seq<WriteResult>)
    requires |input| >= HEADER_SIZE && EveryRecvHandsOver(HEADER_SIZE, 0, |input|, results)
    requires left == LeftAfter(HEADER_SIZE, 0, |input|, results) && size == PayloadSize(input[..HEADER_SIZE])
    requires |input| >= HEADER_SIZE + size && EveryRecvHandsOver(size, 0, |input| - HEADER_SIZE, left)
    requires left' == LeftAfter(size, 0, |input| - HEADER_SIZE, left) && !RecordHandedOver(input, results)
    ensures !IsLast(input[..HEADER_SIZE]) && !RecordHandedOver(input[HEADER_SIZE + size..], left')
  {
  }

  /** So a record that is cut off is no record, and what is returned was sent. */
  lemma CutOffIsNoRecord(acc: Option<Bytes>, memory: Memory, k: nat, input: Bytes, results: seq<WriteResult>)
    requires NoneFails(results)
    ensures var r := ReceiveRecord(acc, memory, k, input, results);
            && (r.buffer.Some? ==> ParseRecord(acc, input) == Got(r.buffer, r.incoming))
            && (ParseRecord(acc, input).Incomplete? ==> r.buffer == None)
  {
    RecordExactly(acc, memory, k, input, results);
  }

  // -------------------------------------------------------------------- the methods

  /** The receiving side of a socket: what arrives, and what the next calls of recv report. */
  class Socket {
    var incoming: Bytes
    var results: seq<WriteResult>

    constructor (incoming: Bytes, results: seq<WriteResult>)
      ensures this.incoming == incoming && this.results == results
    {
      this.incoming, this.results := incoming, results;
    }

    /** recv into part of a buffer. */
    method Recv(buffer: array<Byte>, at: nat, room: nat) returns (r: WriteResult)
      requires results != [] && at + room <= buffer.Length
      modifies this, buffer
      ensures results == old(results)[1..] && r == HandedOver(old(results)[0], room, |old(incoming)|)
      ensures incoming == if r > 0 then old(incoming)[r..] else old(incoming)
      ensures buffer[..] == if r > 0 then Overwritten(old(buffer[..]), at, old(incoming)[..r]) else old(buffer[..])
    {
      r := HandedOver(results[0], room, |incoming|);
      results := results[1..];
      if r > 0 {
        forall i | 0 <= i < r { buffer[at + i] := incoming[i]; }
        incoming := incoming[r..];
      }
    }

    /** The receive loop; None when a call never returns. */
    method ReceiveBytes(buffer: array<Byte>) returns (code: Option<nat>)
      requires buffer.Length < 0x8000_0000_0000_0000
      modifies this, buffer
      ensures Reception(code, buffer[..], incoming, results)
           == ReceiveFrom(old(buffer[..]), 0, old(incoming), old(results))
    {
      var total: nat := 0;
      while total < buffer.Length
        invariant ReceiveFrom(buffer[..], total, incoming, results)
               == ReceiveFrom(old(buffer[..]), 0, old(incoming), old(results))
        decreases |results|
      {
        if results == [] {
          return None;
        }
        var r := Recv(buffer, total, buffer.Length - total);
        if r == 0 {
          return Some(2);
        }
        total := Advance(total, r);
      }
      return Some(0);
    }

    /** One record: NULL on failure, or blocked. */
    method ReceiveRmRecord(memory: Memory) returns (record: Option<Bytes>, blocked: bool)
      modifies this
      ensures RecordReception(record, blocked, incoming, results)
           == ReceiveRecord(None, memory, 0, old(incoming), old(results))
    {
      var k: nat := 0;
      record := None;
      while true
        invariant ReceiveRecord(record, memory, k, incoming, results)
               == ReceiveRecord(None, memory, 0, old(incoming), old(results))
        decreases |results|
      {
        var header := new Byte[HEADER_SIZE](i requires 0 <= i => memory(k, i));
        assert header[..] == FreshBytes(memory, k, HEADER_SIZE);
        var code := ReceiveBytes(header);
        if code != Some(0) {
          return None, code.None?;
        }
        var isLast, size := IsLast(header[..]), PayloadSize(header[..]);
        var payload := new Byte[size](i requires 0 <= i => memory(k + 1, i));
        assert payload[..] == FreshBytes(memory, k + 1, size);
        code := ReceiveBytes(payload);
        if code != Some(0) {
          return None, code.None?;
        }
        record := Grown(record, payload[..]);
        k := k + 2;
        if isLast {
          return record, false;
        }
      }
    }
  }
}
