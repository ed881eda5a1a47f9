/** The receiving context of a stream and the loops that read into it. */
module ReceivingContext {
  import opened Common
  import opened RecordMarking

  class RmReceivingContext {
    var accumulated: Option<Bytes>
    var header: Bytes
    var isLast: bool
    var expected: nat
    var payload: Bytes
    var fullyReceived: bool

    function State(): Rm
      reads this
    {
      Rm(accumulated, header, isLast, expected, payload, fullyReceived)
    }

    constructor ()
      ensures State() == INITIAL
    {
      accumulated, header, isLast := None, [], false;
      expected, payload, fullyReceived := 0, [], false;
    }

    method ResetForNextFragment()
      modifies this
      ensures State() == Fresh(old(accumulated))
    {
      header, isLast := [], false;
      expected, payload, fullyReceived := 0, [], false;
    }

    method CopyHeaderBytes(piece: Bytes)
      requires |header| + |piece| <= HEADER_SIZE
      modifies this
      ensures State() == TakeHeader(old(State()), piece)
    {
      header := header + piece;
      if |header| == HEADER_SIZE {
        isLast, expected := IsLast(header), PayloadSize(header);
      }
    }

    /** malloc for the first payload, realloc for the others; realloc to no bytes frees and gives NULL. */
    method SaveFragment() returns (failed: bool)
      requires State().FragmentComplete()
      modifies this
      ensures State() == Flush(old(State())) && failed == old(State().CannotSave())
    {
      if accumulated.Some? && |accumulated.value| + |payload| == 0 {
        accumulated := None;
        return true;
      }
      accumulated := Some(BufferBytes(accumulated) + payload);
      if isLast {
        fullyReceived := true;
      } else {
        ResetForNextFragment();
      }
      return false;
    }

    method ProcessPiece(bytes: Bytes, processed: nat) returns (k: nat, failed: bool)
      requires State().Valid() && processed < |bytes|
      modifies this
      ensures k == Piece(old(State()), bytes[processed..]) && failed == old(State().CannotSave())
      ensures State() == Turn(old(State()), bytes[processed..][..k])
    {
      ghost var rest := bytes[processed..];
      failed := false;
      if |header| < HEADER_SIZE {
        k := Min(HEADER_SIZE - |header|, |bytes| - processed);
        assert rest[..k] == bytes[processed..processed + k];
        CopyHeaderBytes(bytes[processed..processed + k]);
        return;
      }
      k := 0;
      if |payload| < expected {
        k := Min(expected - |payload|, |bytes| - processed);
        assert rest[..k] == bytes[processed..processed + k];
        payload := payload + bytes[processed..processed + k];
      }
      assert payload == old(payload) + rest[..k];
      if |payload| == expected {
        failed := SaveFragment();
      }
    }

    /** The same, seen from the bytes that are left. */
    method ProcessTurn(bytes: Bytes, processed: nat) returns (next: nat, failed: bool)
      requires State().Valid() && processed < |bytes|
      modifies this
      ensures processed <= next <= |bytes| && State().Valid()
      ensures Feed(old(State()), bytes[processed..]) ==
              if failed || fullyReceived then Fed(State(), bytes[next..], failed) else Feed(State(), bytes[next..])
      ensures next > processed || failed || fullyReceived
              || (old(State().FragmentComplete()) && !State().FragmentComplete())
    {
      TurnIsFeed(State(), bytes[processed..]);
      var k: nat;
      k, failed := ProcessPiece(bytes, processed);
      assert bytes[processed..][k..] == bytes[processed + k..];
      next := processed + k;
    }

    /** Works through the bytes of one read, in pieces as large as they come. */
    method ProcessRead(bytes: Bytes) returns (processed: nat, failed: bool)
      requires State().Valid()
      modifies this
      ensures processed <= |bytes| && State().Valid()
      ensures Feed(old(State()), bytes) == Fed(State(), bytes[processed..], failed)
    {
      ghost var s0 := State();
      processed, failed := 0, false;
      assert bytes[0..] == bytes;
      while processed < |bytes|
        invariant processed <= |bytes| && State().Valid() && !failed
        invariant Feed(s0, bytes) == Feed(State(), bytes[processed..])
        decreases |bytes| - processed, if State().FragmentComplete() then 1 else 0
      {
        processed, failed := ProcessTurn(bytes, processed);
        if failed || fullyReceived {
          return;
        }
      }
    }

    /** Reads until nothing is available or the record is complete. */
    method ReceiveAvailableBytes(chunks: seq<Bytes>) returns (code: nat, used: nat)
      requires State().Valid()
      requires forall i :: 0 <= i < |chunks| ==> |chunks[i]| <= READ_BUF_SIZE
      modifies this
      ensures State().Valid()
      ensures Received(State(), code, used) == Receive(old(State()), chunks)
    {
      used := 0;
      ghost var s0 := State();
      assert chunks[0..] == chunks;
      while used < |chunks|
        invariant used <= |chunks| && State().Valid()
        invariant var r := Receive(State(), chunks[used..]);
                  Receive(s0, chunks) == r.(used := r.used + used)
      {
        var chunk := chunks[used];
        assert chunks[used..][1..] == chunks[used + 1..];
        used := used + 1;
        if chunk == [] {
          return 2, used;
        }
        var processed, failed := ProcessRead(chunk);
        if failed {
          return 3, used;
        }
        if fullyReceived {
          if processed < |chunk| {
            return 4, used;
          }
          return 0, used;
        }
      }
      code := 0;
    }
  }
}
