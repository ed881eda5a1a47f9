/**
 The counter loop that writes a buffer in as many calls as the transport takes.
 The source keeps each call's signed result in a size_t, so its test for a
 negative result never fires and the counter wraps instead.
 */
module TransferLoop {
  import opened Common
  import opened RecordMarking

  const SIZE_T_RANGE := 0x1_0000_0000_0000_0000

  /** The size of an object in memory. */
  type Size = n: int | 0 <= n < 0x8000_0000_0000_0000

  /** What one write reports: a negative error code or a count. */
  type WriteResult = r: int | -0x8000_0000 <= r < 0x8000_0000_0000_0000

  /** `total += bytes_sent`, where the signed result was stored in a size_t. */
  function Advance(total: nat, r: WriteResult): nat
    requires total < 0x8000_0000_0000_0000
  {
    if total + r < 0 then SIZE_T_RANGE + total + r else total + r
  }

  /** That is arithmetic of 64 bits without sign. */
  lemma AdvanceWraps(total: nat, r: WriteResult)
    requires total < 0x8000_0000_0000_0000
    ensures var bytesSent := r % SIZE_T_RANGE;
            Advance(total, r) == (total + bytesSent) % SIZE_T_RANGE < SIZE_T_RANGE
  {
    if r < 0 {
      assert r % SIZE_T_RANGE == SIZE_T_RANGE + r;
    }
  }

  /** A piece [from, from + count) of the buffer handed to the transport. */
  datatype Window = Window(from: nat, count: nat)

  datatype Exit = Returns(code: nat) | Blocked

  /** The pieces handed over, how the loop ends, and the results not used. */
  datatype Transfer = Transfer(windows: seq<Window>, exit: Exit, left: seq<WriteResult>)

  /** The loop from counter `total` on; `results` are what the next calls report, if they return. */
  function Run(size: Size, total: nat, results: seq<WriteResult>): Transfer
    decreases |results|
  {
    if total >= size then Transfer([], Returns(0), results)
    else if results == [] then Transfer([], Blocked, [])
    else if results[0] == 0 then Transfer([], Returns(2), results[1..])
    else if results[0] < 0 then Run(size, Advance(total, results[0]), results[1..])
    else
      var count := Min(results[0], size - total);
      var rest := Run(size, total + count, results[1..]);
      rest.(windows := [Window(total, count)] + rest.windows)
  }

  /** The windows are adjacent and cover exactly [from, to). */
  predicate Tiles(ws: seq<Window>, from: nat, to: nat) {
    if ws == [] then from == to
    else ws[0].from == from && Tiles(ws[1..], from + ws[0].count, to)
  }

  /** The whole buffer went out, in order, once, and the loop reports success. */
  predicate Delivered(size: Size, results: seq<WriteResult>) {
    var t := Run(size, 0, results);
    t.exit == Returns(0) && Tiles(t.windows, 0, size)
  }

  /** Every call until the buffer is done accepts at least one byte. */
  predicate EveryCallAccepts(size: Size, total: nat, results: seq<WriteResult>)
    decreases |results|
  {
    || total >= size
    || (results != [] && results[0] > 0 &&
        EveryCallAccepts(size, total + Min(results[0], size - total), results[1..]))
  }

  /** Once the counter has fallen behind, what follows cannot continue at `from`. */
  lemma {:induction false} NeverCatchesUp(size: Size, total: nat, from: nat, results: seq<WriteResult>)
    requires total < from < size
    ensures !Tiles(Run(size, total, results).windows, from, size)
    decreases |results|
  {
    if results != [] && results[0] < 0 {
      var next := Advance(total, results[0]);
      if next < size { NeverCatchesUp(size, next, from, results[1..]); }
    }
  }

  lemma {:induction false} DeliveredFromExactly(size: Size, total: nat, results: seq<WriteResult>)
    requires total <= size
    ensures EveryCallAccepts(size, total, results) <==>
            (Run(size, total, results).exit == Returns(0) && Tiles(Run(size, total, results).windows, total, size))
    decreases |results|
  {
    if total < size && results != [] {
      if results[0] > 0 {
        var count := Min(results[0], size - total);
        DeliveredFromExactly(size, total + count, results[1..]);
        var rest := Run(size, total + count, results[1..]);
        assert ([Window(total, count)] + rest.windows)[1..] == rest.windows;
      } else if results[0] < 0 {
        var next := Advance(total, results[0]);
        if next < size { NeverCatchesUp(size, next, total, results[1..]); }
      }
    }
  }

  /** Success is reported truthfully exactly when no call failed or accepted nothing. */
  lemma DeliveredExactly(size: Size, results: seq<WriteResult>)
    ensures Delivered(size, results) <==> EveryCallAccepts(size, 0, results)
  {
    DeliveredFromExactly(size, 0, results);
  }

  /** A failing first call is reported as success with nothing sent. */
  lemma FailureReportedAsSuccess(size: Size, error: WriteResult)
    requires size > 0 && error < 0
    ensures Run(size, 0, [error]) == Transfer([], Returns(0), []) && !Delivered(size, [error])
  {
    assert Advance(0, error) >= size;
  }

  /** The bytes that the windows of a transfer put on the stream. */
  function Sent(buffer: Bytes, ws: seq<Window>): Bytes {
    if ws == [] then []
    else
      var lo := Min(ws[0].from, |buffer|);
      buffer[lo..Min(lo + ws[0].count, |buffer|)] + Sent(buffer, ws[1..])
  }

  lemma {:induction false} TilesSendAll(buffer: Bytes, ws: seq<Window>, from: nat)
    requires from <= |buffer| && Tiles(ws, from, |buffer|)
    ensures Sent(buffer, ws) == buffer[from..]
    decreases |ws|
  {
    if ws != [] {
      TilesWithin(ws[1..], from + ws[0].count, |buffer|);
      TilesSendAll(buffer, ws[1..], from + ws[0].count);
    }
  }

  lemma {:induction false} TilesWithin(ws: seq<Window>, from: nat, to: nat)
    requires Tiles(ws, from, to)
    ensures from <= to
    decreases |ws|
  {
    if ws != [] { TilesWithin(ws[1..], from + ws[0].count, to); }
  }

  /** No call fails, and there are results enough even for `n` writes of one byte. */
  predicate Accepting(results: seq<WriteResult>, n: int) {
    n <= |results| && forall i :: 0 <= i < |results| ==> results[i] > 0
  }

  lemma {:induction false} AcceptingDelivers(size: Size, total: nat, results: seq<WriteResult>, extra: nat)
    requires total <= size && Accepting(results, size - total + extra)
    ensures EveryCallAccepts(size, total, results)
    ensures Accepting(Run(size, total, results).left, extra)
    decreases |results|
  {
    if total < size {
      AcceptingDelivers(size, total + Min(results[0], size - total), results[1..], extra);
    }
  }

  /** No call fails: each takes or hands over some bytes, or none. */
  predicate NoneFails(results: seq<WriteResult>) { forall i :: 0 <= i < |results| ==> results[i] >= 0 }

  /** Why a loop ends early, if no call fails: no further call returns, or one does nothing. */
  predicate EndsEarly(exit: Exit, results: seq<WriteResult>, left: seq<WriteResult>) {
    if exit.Blocked? then left == [] else exit == Returns(2) && 0 in results
  }

  /** If no call fails, success is reported exactly when each takes something until the end. */
  lemma {:induction false} ReportsTruthfully(size: Size, total: nat, results: seq<WriteResult>)
    requires total <= size && NoneFails(results)
    ensures var t := Run(size, total, results);
            && (t.exit == Returns(0) <==> EveryCallAccepts(size, total, results))
            && (t.exit != Returns(0) ==> EndsEarly(t.exit, results, t.left))
            && NoneFails(t.left) && (0 in t.left ==> 0 in results)
    decreases |results|
  {
    if total < size && results != [] && results[0] > 0 {
      ReportsTruthfully(size, total + Min(results[0], size - total), results[1..]);
    }
  }

  /** What went out is the buffer from `total` to `k`, and success is reported exactly when that is its end. */
  predicate SentUpTo(buffer: Bytes, total: nat, k: nat, t: Transfer) {
    total <= k <= |buffer| && Sent(buffer, t.windows) == buffer[total..k] && (t.exit == Returns(0) <==> k == |buffer|)
  }

  lemma SentBefore(buffer: Bytes, total: nat, count: nat, k: nat, t: Transfer)
    requires total + count <= |buffer| && SentUpTo(buffer, total + count, k, t)
    ensures SentUpTo(buffer, total, k, t.(windows := [Window(total, count)] + t.windows))
  {
    assert ([Window(total, count)] + t.windows)[1..] == t.windows;
    assert buffer[total..total + count] + buffer[total + count..k] == buffer[total..k];
  }

  lemma {:induction false} SentSoFar(buffer: Bytes, total: nat, results: seq<WriteResult>) returns (k: nat)
    requires total <= |buffer| < 0x8000_0000_0000_0000 && NoneFails(results)
    ensures SentUpTo(buffer, total, k, Run(|buffer|, total, results))
    decreases |results|
  {
    k := total;
    if total < |buffer| && results != [] && results[0] > 0 {
      var count := Min(results[0], |buffer| - total);
      k := SentSoFar(buffer, total + count, results[1..]);
      SentBefore(buffer, total, count, k, Run(|buffer|, total + count, results[1..]));
    }
  }

  /** One direction of a QUIC stream or a TCP socket, with the results its next writes will report. */
  class Sink {
    var written: Bytes
    var results: seq<WriteResult>

    constructor (results: seq<WriteResult>)
      ensures written == [] && this.results == results
    {
      written, this.results := [], results;
    }

    method Write(data: Bytes) returns (r: WriteResult)
      requires results != [] && data != []
      modifies this
      ensures results == old(results)[1..]
      ensures r == Min(old(results)[0], |data|)
      ensures written == old(written) + if r > 0 then data[..r] else []
    {
      r := Min(results[0], |data|);
      results := results[1..];
      if r > 0 {
        written := written + data[..r];
      }
    }

    /** The send loop; None when a call never returns. */
    method SendBytes(buffer: Bytes) returns (code: Option<nat>)
      requires |buffer| < 0x8000_0000_0000_0000
      modifies this
      ensures var spec := OneBuffer(buffer, old(results));
              code == spec.code && written == old(written) + spec.bytes && results == spec.left
    {
      ghost var t := Run(|buffer|, 0, results);
      var total: nat := 0;
      while total < |buffer|
        invariant var rest := Run(|buffer|, total, results);
                  && t.exit == rest.exit && t.left == rest.left
                  && written + Sent(buffer, rest.windows) == old(written) + Sent(buffer, t.windows)
        decreases |results|
      {
        if results == [] {
          return None;
        }
        RunOnce(buffer, total, results, written);
        var r := Write(buffer[total..]);
        if r == 0 {
          return Some(2);
        }
        total := Advance(total, r);
      }
      return Some(0);
    }

    /** The header and then the data of one fragment. */
    method SendFragment(f: Fragment) returns (code: Option<nat>)
      requires |f.data| <= MAX_FRAGMENT_SIZE
      modifies this
      ensures var spec := SendOne(f, old(results));
              code == spec.code && written == old(written) + spec.bytes && results == spec.left
    {
      var c := SendBytes(Header(f.last, |f.data|));
      if c != Some(0) {
        return if c == None then None else Some(1);
      }
      c := SendBytes(f.data);
      if c != Some(0) {
        return if c == None then None else Some(2);
      }
      return Some(0);
    }

    /** One turn of the record loop; `whole` is what the record will have been sent as, from `start` on. */
    method SendNext(record: Bytes, sent: nat, ghost whole: Sending, ghost start: Bytes)
      returns (code: Option<nat>, next: nat)
      requires sent < |record| && Continues(whole, start, SendFragments(Cut(record[sent..]), results), written)
      modifies this
      ensures sent < next <= |record|
      ensures if code == Some(0) then Continues(whole, start, SendFragments(Cut(record[next..]), results), written)
              else Ends(whole, start, code, results, written)
    {
      var size := Min(|record| - sent, MAX_FRAGMENT_SIZE);
      SendTurn(whole, start, record, sent, results, written);
      next := sent + size;
      code := SendFragment(Fragment(|record| - sent == size, record[sent..next]));
    }

    /** Writes a record as fragments. */
    method SendRmRecord(record: Bytes) returns (code: Option<nat>)
      requires |record| < 0x8000_0000_0000_0000
      modifies this
      ensures var spec := SendFragments(Cut(record), old(results));
              code == spec.code && written == old(written) + spec.bytes && results == spec.left
    {
      var sent := 0;
      assert record[0..] == record;
      ghost var spec := SendFragments(Cut(record), results);
      while sent < |record|
        invariant 0 <= sent <= |record|
        invariant Continues(spec, old(written), SendFragments(Cut(record[sent..]), results), written)
      {
        code, sent := SendNext(record, sent, spec, old(written));
        if code != Some(0) {
          return;
        }
      }
      NothingLeftEnds(spec, old(written), record[sent..], results, written);
      return Some(0);
    }
  }

  // ------------------------------------------------------------ a record, sent

  /** The code returned, or None when a call never returns; the bytes on the stream; the results not used. */
  datatype Sending = Sending(code: Option<nat>, bytes: Bytes, left: seq<WriteResult>)

  function OneBuffer(buffer: Bytes, results: seq<WriteResult>): Sending
    requires |buffer| < 0x8000_0000_0000_0000
  {
    var t := Run(|buffer|, 0, results);
    Sending(if t.exit.Blocked? then None else Some(t.exit.code), Sent(buffer, t.windows), t.left)
  }

  function Failing(s: Sending, code: nat): Sending { if s.code.None? then s else s.(code := Some(code)) }

  function SendOne(f: Fragment, results: seq<WriteResult>): Sending
    requires |f.data| <= MAX_FRAGMENT_SIZE
  {
    var h := OneBuffer(Header(f.last, |f.data|), results);
    if h.code != Some(0) then Failing(h, 1)
    else
      var d := OneBuffer(f.data, h.left);
      var both := d.(bytes := h.bytes + d.bytes);
      if d.code != Some(0) then Failing(both, 2) else both
  }

  function SendFragments(fs: seq<Fragment>, results: seq<WriteResult>): Sending
    requires forall f :: f in fs ==> |f.data| <= MAX_FRAGMENT_SIZE
    decreases |fs|
  {
    if fs == [] then Sending(Some(0), [], results)
    else
      var one := SendOne(fs[0], results);
      if one.code != Some(0) then one
      else
        var rest := SendFragments(fs[1..], one.left);
        rest.(bytes := one.bytes + rest.bytes)
  }

  /** The fragments of a record; none for an empty one. */
  function Cut(record: Bytes): (fs: seq<Fragment>)
    ensures forall f :: f in fs ==> |f.data| <= MAX_FRAGMENT_SIZE
    ensures Wire(fs) == Encode(record)
  {
    if record == [] then [] else Fragments(record)
  }

  predicate Continues(whole: Sending, start: Bytes, rest: Sending, now: Bytes) {
    whole.code == rest.code && whole.left == rest.left && start + whole.bytes == now + rest.bytes
  }

  predicate Ends(whole: Sending, start: Bytes, code: Option<nat>, left: seq<WriteResult>, now: Bytes) {
    whole.code == code && whole.left == left && start + whole.bytes == now
  }

  lemma NothingLeftEnds(whole: Sending, start: Bytes, rest: Bytes, results: seq<WriteResult>, now: Bytes)
    requires rest == [] && Continues(whole, start, SendFragments(Cut(rest), results), now)
    ensures Ends(whole, start, Some(0), results, now)
  {
    assert now + [] == now;
  }

  lemma RecordTurn(whole: Sending, start: Bytes, f: Fragment, tail: seq<Fragment>,
                   results: seq<WriteResult>, now: Bytes)
    requires forall g :: g in [f] + tail ==> |g.data| <= MAX_FRAGMENT_SIZE
    requires Continues(whole, start, SendFragments([f] + tail, results), now)
    ensures |f.data| <= MAX_FRAGMENT_SIZE && forall g :: g in tail ==> |g.data| <= MAX_FRAGMENT_SIZE
    ensures var one := SendOne(f, results);
            if one.code == Some(0) then Continues(whole, start, SendFragments(tail, one.left), now + one.bytes)
            else Ends(whole, start, one.code, one.left, now + one.bytes)
  {
    assert f in [f] + tail && forall g :: g in tail ==> g in [f] + tail;
    assert ([f] + tail)[1..] == tail;
    var one := SendOne(f, results);
    if one.code == Some(0) {
      var rest := SendFragments(tail, one.left);
      assert now + (one.bytes + rest.bytes) == now + one.bytes + rest.bytes;
    }
  }

  /** One turn of the record loop. */
  lemma SendTurn(whole: Sending, start: Bytes, record: Bytes, sent: nat, results: seq<WriteResult>, now: Bytes)
    requires sent < |record| && Continues(whole, start, SendFragments(Cut(record[sent..]), results), now)
    ensures var n := Min(|record| - sent, MAX_FRAGMENT_SIZE);
            var one := SendOne(Fragment(|record| - sent == n, record[sent..sent + n]), results);
            if one.code == Some(0)
            then Continues(whole, start, SendFragments(Cut(record[sent + n..]), one.left), now + one.bytes)
            else Ends(whole, start, one.code, one.left, now + one.bytes)
  {
    var n := Min(|record| - sent, MAX_FRAGMENT_SIZE);
    CutStep(record, sent);
    var f := Fragment(|record| - sent == n, record[sent..sent + n]);
    RecordTurn(whole, start, f, Cut(record[sent + n..]), results, now);
  }

  /** No call fails or takes nothing before the record is through. */
  predicate EveryFragmentAccepted(fs: seq<Fragment>, results: seq<WriteResult>)
    requires forall f :: f in fs ==> |f.data| <= MAX_FRAGMENT_SIZE
    decreases |fs|
  {
    fs == [] ||
    (&& EveryCallAccepts(HEADER_SIZE, 0, results)
     && var left := Run(HEADER_SIZE, 0, results).left;
     && EveryCallAccepts(|fs[0].data|, 0, left)
     && EveryFragmentAccepted(fs[1..], Run(|fs[0].data|, 0, left).left))
  }

  lemma AcceptedBuffer(buffer: Bytes, results: seq<WriteResult>)
    requires |buffer| < 0x8000_0000_0000_0000 && EveryCallAccepts(|buffer|, 0, results)
    ensures OneBuffer(buffer, results) == Sending(Some(0), buffer, Run(|buffer|, 0, results).left)
  {
    DeliveredExactly(|buffer|, results);
    TilesSendAll(buffer, Run(|buffer|, 0, results).windows, 0);
    assert buffer[0..] == buffer;
  }

  /** If every call takes something, the sender puts its record's encoding on the stream and says so. */
  lemma {:induction false} AcceptedRecordIsSent(fs: seq<Fragment>, results: seq<WriteResult>)
    requires forall f :: f in fs ==> |f.data| <= MAX_FRAGMENT_SIZE
    requires EveryFragmentAccepted(fs, results)
    ensures SendFragments(fs, results).code == Some(0) && SendFragments(fs, results).bytes == Wire(fs)
    decreases |fs|
  {
    if fs != [] {
      AcceptedBuffer(Header(fs[0].last, |fs[0].data|), results);
      var left := Run(HEADER_SIZE, 0, results).left;
      AcceptedBuffer(fs[0].data, left);
      AcceptedRecordIsSent(fs[1..], Run(|fs[0].data|, 0, left).left);
    }
  }

  lemma SentBuffer(buffer: Bytes, results: seq<WriteResult>) returns (k: nat)
    requires |buffer| < 0x8000_0000_0000_0000 && NoneFails(results)
    ensures k <= |buffer| && OneBuffer(buffer, results).bytes == buffer[..k]
    ensures var s := OneBuffer(buffer, results);
            && (s.code == Some(0) <==> k == |buffer|)
            && (s.code == Some(0) <==> EveryCallAccepts(|buffer|, 0, results))
            && (s.code != Some(0) ==> CutOff(s.code, results, s.left))
            && NoneFails(s.left) && (0 in s.left ==> 0 in results)
  {
    k := SentSoFar(buffer, 0, results);
    ReportsTruthfully(|buffer|, 0, results);
  }

  /** A call never returns, or one took nothing. */
  predicate CutOff(code: Option<nat>, results: seq<WriteResult>, left: seq<WriteResult>) {
    if code.None? then left == [] else 0 in results
  }

  /** The code tells where the sending of a fragment stopped: in its header, in its data, or at its end. */
  predicate StopsAt(code: Option<nat>, k: nat, size: nat) {
    if code == Some(0) then k == HEADER_SIZE + size
    else if code == Some(1) then k < HEADER_SIZE
    else if code == Some(2) then HEADER_SIZE <= k < HEADER_SIZE + size
    else code == None && k < HEADER_SIZE + size
  }

  lemma SentFragment(f: Fragment, results: seq<WriteResult>) returns (k: nat)
    requires |f.data| <= MAX_FRAGMENT_SIZE && NoneFails(results)
    ensures k <= |FragmentBytes(f)| && SendOne(f, results).bytes == FragmentBytes(f)[..k]
    ensures var s := SendOne(f, results);
            && StopsAt(s.code, k, |f.data|)
            && (s.code != Some(0) ==> CutOff(s.code, results, s.left))
            && NoneFails(s.left) && (0 in s.left ==> 0 in results)
  {
    var h := Header(f.last, |f.data|);
    k := SentBuffer(h, results);
    if k == |h| {
      var n := SentBuffer(f.data, OneBuffer(h, results).left);
      assert h[..k] == h && h + f.data[..n] == FragmentBytes(f)[..|h| + n];
      k := k + n;
    } else {
      assert h[..k] == FragmentBytes(f)[..k];
    }
  }

  /**
   If no call fails, what goes out for a record is its encoding up to some byte; success is
   reported if and only if it is all of it.
   */
  lemma {:induction false} SentExactly(fs: seq<Fragment>, results: seq<WriteResult>)
    requires forall f :: f in fs ==> |f.data| <= MAX_FRAGMENT_SIZE
    requires NoneFails(results)
    ensures var s := SendFragments(fs, results);
            && s.bytes <= Wire(fs)
            && (s.code == Some(0) <==> s.bytes == Wire(fs))
            && (s.code != Some(0) ==> CutOff(s.code, results, s.left))
    decreases |fs|
  {
    if fs != [] {
      var k := SentFragment(fs[0], results);
      var one, first := SendOne(fs[0], results), FragmentBytes(fs[0]);
      if one.code == Some(0) {
        SentExactly(fs[1..], one.left);
        assert first[..k] == first;
      } else {
        assert |first[..k]| < |Wire(fs)|;
      }
    }
  }

  /** Enough results that take at least one byte are enough for a record. */
  lemma {:induction false} AcceptingSendsRecord(fs: seq<Fragment>, results: seq<WriteResult>)
    requires forall f :: f in fs ==> |f.data| <= MAX_FRAGMENT_SIZE
    requires Accepting(results, |Wire(fs)|)
    ensures EveryFragmentAccepted(fs, results)
    decreases |fs|
  {
    if fs != [] {
      var n, rest := |fs[0].data|, |Wire(fs[1..])|;
      AcceptingDelivers(HEADER_SIZE, 0, results, n + rest);
      AcceptingDelivers(n, 0, Run(HEADER_SIZE, 0, results).left, rest);
      AcceptingSendsRecord(fs[1..], Run(n, 0, Run(HEADER_SIZE, 0, results).left).left);
    }
  }

  /** The fragments of what is left begin with the next one. */
  lemma CutStep(record: Bytes, sent: nat)
    requires sent < |record|
    ensures var n := Min(|record| - sent, MAX_FRAGMENT_SIZE);
            Cut(record[sent..]) ==
            [Fragment(|record| - sent == n, record[sent..sent + n])] + Cut(record[sent + n..])
  {
    var left := record[sent..];
    var n := Min(|left|, MAX_FRAGMENT_SIZE);
    assert left[..n] == record[sent..sent + n] && left[n..] == record[sent + n..];
  }

  /** One turn of the loop, seen from the stream that already holds `before`. */
  lemma RunOnce(buffer: Bytes, total: nat, results: seq<WriteResult>, before: Bytes)
    requires total < |buffer| < 0x8000_0000_0000_0000 && results != []
    ensures var t, r := Run(|buffer|, total, results), Min(results[0], |buffer| - total);
            if r == 0 then t == Transfer([], Returns(2), results[1..])
            else
              var t' := Run(|buffer|, Advance(total, r), results[1..]);
              && t.exit == t'.exit && t.left == t'.left
              && before + Sent(buffer, t.windows) ==
                 before + (if r > 0 then buffer[total..][..r] else []) + Sent(buffer, t'.windows)
  {
    var r := Min(results[0], |buffer| - total);
    if r > 0 {
      var ws := Run(|buffer|, total + r, results[1..]).windows;
      assert ([Window(total, r)] + ws)[1..] == ws;
      assert buffer[total..][..r] == buffer[total..total + r];
    } else {
      assert before + [] == before;
    }
  }
}
