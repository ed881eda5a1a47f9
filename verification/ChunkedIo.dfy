/**
 Reading and writing a file in pieces of 5000 bytes per call (sections 2.2.7 and
 2.2.9 of RFC 1094).  The offset of a call is an unsigned 32-bit field.
 */
module ChunkedIo {
  import opened Common

  const BYTES_PER_RPC := 5000
  const UINT32_RANGE := 0x1_0000_0000

  // ------------------------------------------------------------ the server's part

  /** fseek and fread: nothing lies at or beyond the end. */
  function ReadAt(file: Bytes, offset: nat, count: nat): (data: Bytes)
    ensures |data| <= count
  {
    if offset >= |file| then [] else file[offset..Min(offset + count, |file|)]
  }

  function Zeros(n: nat): (z: Bytes)
    ensures |z| == n
  {
    seq(n, i => 0)
  }

  /** fseek and fwrite: a gap before the data is filled with zeros; no data leaves the file alone. */
  function WriteAt(file: Bytes, offset: nat, data: Bytes): (r: Bytes)
    ensures data != [] ==> |r| == if |file| < offset + |data| then offset + |data| else |file|
  {
    if data == [] then file
    else
      var padded := if |file| < offset then file + Zeros(offset - |file|) else file;
      padded[..offset] + data + (if offset + |data| < |file| then file[offset + |data|..] else [])
  }

  // ------------------------------------------------------------------ the reading

  /** The offset field of the call after `done` bytes. */
  function CallOffset(offset: nat, done: nat): (o: nat)
    ensures o <= offset + done && o < UINT32_RANGE
    ensures offset + done < UINT32_RANGE ==> o == offset + done
  {
    (offset + done) % UINT32_RANGE
  }

  /** The data of one READ call. */
  function Chunk(file: Bytes, offset: nat, size: nat, done: nat): Bytes
    requires done <= size
  {
    ReadAt(file, CallOffset(offset, done), Min(size - done, BYTES_PER_RPC))
  }

  /** What the loop has at its end, when it has `acc` before a call. */
  function Collect(file: Bytes, offset: nat, size: nat, acc: Bytes): (data: Bytes)
    requires |acc| <= size
    ensures |data| <= size && acc <= data
    decreases size - |acc|
  {
    var acc' := acc + Chunk(file, offset, size, |acc|);
    if |acc'| < size && offset + |acc'| < |file| then Collect(file, offset, size, acc') else acc'
  }

  function ChunkedRead(file: Bytes, offset: nat, size: nat): Bytes { Collect(file, offset, size, []) }

  /** How many bytes there are to read. */
  function Available(length: nat, offset: nat, size: nat): nat {
    if offset >= length then 0 else Min(size, length - offset)
  }

  /** Where piece number `k` starts, counted from the first. */
  function PieceStart(k: nat): nat { k * BYTES_PER_RPC }

  /** The number of the last of the pieces that `n` bytes are cut into. */
  function LastPiece(n: nat): nat
    requires n > 0
  {
    (n - 1) / BYTES_PER_RPC
  }

  /** Where the last piece starts. */
  function LastStart(offset: nat, n: nat): nat
    requires n > 0
  {
    offset + PieceStart(LastPiece(n))
  }

  lemma PieceOrder(k: nat, q: nat)
    ensures PieceStart(k + 1) == PieceStart(k) + BYTES_PER_RPC && PieceStart(0) == 0
    ensures k < q ==> PieceStart(k) + BYTES_PER_RPC <= PieceStart(q)
    ensures PieceStart(k) < PieceStart(q) + BYTES_PER_RPC ==> k <= q
  {
  }

  lemma LastPieceCovers(n: nat)
    requires n > 0
    ensures PieceStart(LastPiece(n)) < n <= PieceStart(LastPiece(n)) + BYTES_PER_RPC
  {
  }

  /** The number of pieces that `n` bytes are cut into. */
  function Pieces(n: nat): nat { if n == 0 then 0 else LastPiece(n) + 1 }

  lemma PiecesExactly(n: nat, k: nat)
    ensures k < Pieces(n) <==> PieceStart(k) < n
  {
    if n > 0 {
      LastPieceCovers(n);
      PieceOrder(k, LastPiece(n));
      PieceOrder(LastPiece(n), k);
    }
  }

  /**
   When a read may be trusted, from the length of the file alone: no call starts at
   4 GiB or beyond, or there is nothing to read and none of it comes from elsewhere.
   */
  predicate ReadInRange(length: nat, offset: nat, size: nat) {
    var n := Available(length, offset, size);
    if n > 0 then LastStart(offset, n) < UINT32_RANGE
    else size == 0 || CallOffset(offset, 0) >= length
  }

  /** A call in range extends what was read from `offset` on. */
  lemma ReadMore(file: Bytes, offset: nat, size: nat, done: nat)
    requires done <= size && offset + done <= |file| && CallOffset(offset, done) == offset + done
    ensures var n := |Chunk(file, offset, size, done)|;
            && n == Min(Min(size - done, BYTES_PER_RPC), |file| - offset - done)
            && file[offset..offset + done] + Chunk(file, offset, size, done) == file[offset..offset + done + n]
  {
  }

  /** The calls go piece by piece: from piece `k` of `q` on, the loop completes what a single read gives. */
  lemma {:induction false} CollectCorrect(file: Bytes, offset: nat, size: nat, acc: Bytes, k: nat, q: nat)
    requires |acc| == PieceStart(k) < size && offset + PieceStart(k) < |file|
    requires Available(|file|, offset, size) <= PieceStart(q) + BYTES_PER_RPC
    requires offset + PieceStart(q) < UINT32_RANGE
    requires acc == file[offset..offset + |acc|]
    ensures Collect(file, offset, size, acc) == ReadAt(file, offset, size)
    decreases size - |acc|
  {
    PieceOrder(k, q);
    ReadMore(file, offset, size, |acc|);
    var acc' := acc + Chunk(file, offset, size, |acc|);
    if |acc'| < size && offset + |acc'| < |file| {
      assert |acc'| == PieceStart(k + 1);
      CollectCorrect(file, offset, size, acc', k + 1, q);
    } else {
      assert acc' == file[offset..offset + |acc'|] && |acc'| == Available(|file|, offset, size);
    }
  }

  lemma ReadCorrect(file: Bytes, offset: nat, size: nat)
    requires ReadInRange(|file|, offset, size)
    ensures ChunkedRead(file, offset, size) == ReadAt(file, offset, size)
  {
    var n := Available(|file|, offset, size);
    if n > 0 {
      LastPieceCovers(n);
      CollectCorrect(file, offset, size, [], 0, LastPiece(n));
    }
  }

  /** Up to piece `q` the calls are in step; what that piece starts with is whatever its call reads. */
  lemma {:induction false} ReadsInStep(file: Bytes, offset: nat, size: nat, acc: Bytes, k: nat, q: nat)
    requires k <= q && |acc| == PieceStart(k) <= PieceStart(q) < size && offset + PieceStart(q) < |file|
    ensures var data := Collect(file, offset, size, acc);
            |data| > PieceStart(q) && data[PieceStart(q)] == file[CallOffset(offset, PieceStart(q))]
    decreases q - k
  {
    PieceOrder(k, q);
    var acc' := acc + Chunk(file, offset, size, |acc|);
    if k < q {
      assert |acc'| == PieceStart(k + 1);
      ReadsInStep(file, offset, size, acc', k + 1, q);
    } else {
      assert acc' <= Collect(file, offset, size, acc);
      assert acc'[|acc|] == file[CallOffset(offset, |acc|)];
    }
  }

  /** A file that is zero but for one byte. */
  function OneAt(length: nat, p: nat): (file: Bytes)
    requires p < length
    ensures |file| == length && forall i :: 0 <= i < length ==> file[i] == if i == p then 1 else 0
  {
    seq(length, i => if i == p then 1 else 0)
  }

  /** Out of range, some file of that length is read wrongly. */
  lemma ReadOutOfRange(length: nat, offset: nat, size: nat) returns (file: Bytes)
    requires !ReadInRange(length, offset, size)
    ensures |file| == length && ChunkedRead(file, offset, size) != ReadAt(file, offset, size)
  {
    var n := Available(length, offset, size);
    if n == 0 {
      file := Zeros(length);
      assert |Chunk(file, offset, size, 0)| > 0;
    } else {
      var q := LastPiece(n);
      LastPieceCovers(n);
      file := OneAt(length, LastStart(offset, n));
      ReadsInStep(file, offset, size, [], 0, q);
      assert file[CallOffset(offset, PieceStart(q))] == 0 && ReadAt(file, offset, size)[PieceStart(q)] == 1;
    }
  }

  /** For files of a given length, chunked reading is one positional read if and only if it stays in range. */
  lemma ReadExactly(length: nat, offset: nat, size: nat)
    ensures (forall file: Bytes :: |file| == length ==> ChunkedRead(file, offset, size) == ReadAt(file, offset, size))
            <==> ReadInRange(length, offset, size)
  {
    if ReadInRange(length, offset, size) {
      forall file: Bytes | |file| == length ensures ChunkedRead(file, offset, size) == ReadAt(file, offset, size) {
        ReadCorrect(file, offset, size);
      }
    } else {
      var file := ReadOutOfRange(length, offset, size);
    }
  }

  /** memcpy into the buffer. */
  method Save(buffer: array<Byte>, at: nat, data: Bytes)
    requires at + |data| <= buffer.Length
    modifies buffer
    ensures buffer[..] == old(buffer[..])[..at] + data + old(buffer[..])[at + |data|..]
  {
    forall i | 0 <= i < |data| { buffer[at + i] := data[i]; }
  }

  /** The buffer with the first `n` bytes of `all` in it. */
  function Filled(original: Bytes, all: Bytes, n: nat): Bytes
    requires n <= |all| && n <= |original|
  {
    all[..n] + original[n..]
  }

  lemma FillMore(original: Bytes, all: Bytes, n: nat, data: Bytes)
    requires n + |data| <= |original| && n <= |all| && data <= all[n..]
    ensures n + |data| <= |all|
    ensures var buffer := Filled(original, all, n);
            Filled(original, all, n + |data|) == buffer[..n] + data + buffer[n + |data|..]
  {
    var buffer := Filled(original, all, n);
    assert buffer[..n] == all[..n];
    assert buffer[n + |data|..] == original[n + |data|..];
    assert all[..n] + data == all[..n + |data|];
  }

  /** With `n` bytes of `all` read, either the rest is what the loop goes on to read or there is no rest. */
  predicate ReadSoFar(file: Bytes, offset: nat, size: nat, all: Bytes, n: nat, again: bool) {
    && n <= size && n <= |all|
    && (if again then Collect(file, offset, size, all[..n]) == all else n == |all|)
  }

  /** One turn of the read loop, seen from everything that will be read. */
  lemma ReadTurn(file: Bytes, offset: nat, size: nat, all: Bytes, n: nat)
    requires ReadSoFar(file, offset, size, all, n, true)
    ensures var chunk := Chunk(file, offset, size, n); var n' := n + |chunk|;
            var again := n' < size && offset + n' < |file|;
            && chunk <= all[n..] && (again ==> n' > n)
            && ReadSoFar(file, offset, size, all, n', again)
  {
    var acc' := all[..n] + Chunk(file, offset, size, n);
    assert acc' <= all && acc' == all[..|acc'|];
  }

  /** How many calls the loop makes, when it has `acc` before the next. */
  function ReadCalls(file: Bytes, offset: nat, size: nat, acc: Bytes): nat
    requires |acc| <= size
    decreases size - |acc|
  {
    var acc' := acc + Chunk(file, offset, size, |acc|);
    1 + if |acc'| < size && offset + |acc'| < |file| then ReadCalls(file, offset, size, acc') else 0
  }

  lemma {:induction false} PieceByPiece(file: Bytes, offset: nat, size: nat, acc: Bytes, k: nat, n: nat)
    requires n == Available(|file|, offset, size) && |acc| == PieceStart(k) < n
    requires LastStart(offset, n) < UINT32_RANGE
    ensures k + ReadCalls(file, offset, size, acc) == Pieces(n)
    decreases size - |acc|
  {
    PiecesExactly(n, k);
    PiecesExactly(n, k + 1);
    PieceOrder(k, LastPiece(n));
    ReadMore(file, offset, size, |acc|);
    var acc' := acc + Chunk(file, offset, size, |acc|);
    if |acc'| < size && offset + |acc'| < |file| {
      assert |acc'| == PieceStart(k + 1);
      PieceByPiece(file, offset, size, acc', k + 1, n);
    }
  }

  /** In range there is one call for each piece of what there is to read, and always at least one. */
  lemma ReadCallsExactly(file: Bytes, offset: nat, size: nat)
    requires ReadInRange(|file|, offset, size)
    ensures var n := Available(|file|, offset, size);
            ReadCalls(file, offset, size, []) == if n == 0 then 1 else Pieces(n)
  {
    var n := Available(|file|, offset, size);
    if n > 0 {
      PieceByPiece(file, offset, size, [], 0, n);
    }
  }

  lemma CallTurn(file: Bytes, offset: nat, size: nat, all: Bytes, n: nat)
    requires ReadSoFar(file, offset, size, all, n, true)
    ensures var n' := n + |Chunk(file, offset, size, n)|;
            var again := n' < size && offset + n' < |file|;
            && n' <= |all| && n' <= size
            && ReadCalls(file, offset, size, all[..n])
               == 1 + if again then ReadCalls(file, offset, size, all[..n']) else 0
  {
    var acc' := all[..n] + Chunk(file, offset, size, n);
    assert acc' <= all && acc' == all[..|acc'|];
  }

  /** The calls made and those to come. */
  predicate CallsAddUp(file: Bytes, offset: nat, size: nat, all: Bytes, n: nat, again: bool, calls: nat)
    requires n <= size && n <= |all|
  {
    calls + (if again then ReadCalls(file, offset, size, all[..n]) else 0) == ReadCalls(file, offset, size, [])
  }

  /** One call of the read loop. */
  method ReadPiece(file: Bytes, buffer: array<Byte>, size: nat, offset: nat, n: nat,
                   ghost all: Bytes, ghost original: Bytes, ghost calls: nat)
    returns (n': nat, again: bool)
    requires size <= buffer.Length == |original| && ReadSoFar(file, offset, size, all, n, true)
    requires CallsAddUp(file, offset, size, all, n, true, calls)
    requires buffer[..] == Filled(original, all, n)
    modifies buffer
    ensures ReadSoFar(file, offset, size, all, n', again) && (again ==> n' > n)
    ensures CallsAddUp(file, offset, size, all, n', again, calls + 1)
    ensures buffer[..] == Filled(original, all, n')
  {
    var data := Chunk(file, offset, size, n);
    n' := n + |data|;
    again := n' < size && offset + n' < |file|;
    assert CallsAddUp(file, offset, size, all, n', again, calls + 1) by { CallTurn(file, offset, size, all, n); }
    ReadTurn(file, offset, size, all, n);
    FillMore(original, all, n, data);
    Save(buffer, n, data);
  }

  /** The read handler; `failsAt` is the call that fails, if one does. */
  method BlockingRead(file: Bytes, buffer: array<Byte>, size: nat, offset: nat, failsAt: Option<nat>)
    returns (result: Option<nat>)
    requires size <= buffer.Length
    modifies buffer
    ensures var all := ChunkedRead(file, offset, size);
            && |all| <= size
            && (result.Some? ==> result.value == |all| && buffer[..] == Filled(old(buffer[..]), all, |all|))
    ensures result.None? <==> failsAt.Some? && failsAt.value < ReadCalls(file, offset, size, [])
  {
    var bytesRead: nat, calls: nat := 0, 0;
    ghost var all, original := ChunkedRead(file, offset, size), buffer[..];
    var again := true;
    assert Filled(original, all, 0) == original;
    while again
      invariant ReadSoFar(file, offset, size, all, bytesRead, again) && |original| == buffer.Length
      invariant buffer[..] == Filled(original, all, bytesRead)
      invariant CallsAddUp(file, offset, size, all, bytesRead, again, calls)
      invariant failsAt.Some? ==> calls <= failsAt.value
      decreases again, size - bytesRead
    {
      if failsAt == Some(calls) {
        return None;
      }
      bytesRead, again := ReadPiece(file, buffer, size, offset, bytesRead, all, original, calls);
      calls := calls + 1;
    }
    return Some(bytesRead);
  }

  // ------------------------------------------------------------------ the writing

  /** The file after the calls that write the bytes of `data` from `done` on. */
  function WriteFrom(file: Bytes, offset: nat, data: Bytes, done: nat): Bytes
    requires done <= |data|
    decreases |data| - done
  {
    if done == |data| then file
    else
      var n := Min(|data| - done, BYTES_PER_RPC);
      WriteFrom(WriteAt(file, CallOffset(offset, done), data[done..done + n]), offset, data, done + n)
  }

  function ChunkedWrite(file: Bytes, offset: nat, data: Bytes): Bytes { WriteFrom(file, offset, data, 0) }

  predicate WriteInRange(offset: nat, size: nat) { size == 0 || LastStart(offset, size) < UINT32_RANGE }

  /** The bytes of a file after a write. */
  lemma WriteByte(file: Bytes, offset: nat, data: Bytes, i: nat)
    requires data != [] && i < |WriteAt(file, offset, data)|
    ensures WriteAt(file, offset, data)[i] ==
            if offset <= i < offset + |data| then data[i - offset] else if i < |file| then file[i] else 0
  {
  }

  /** Two writes that follow each other are one. */
  lemma WriteAdjacent(file: Bytes, offset: nat, a: Bytes, b: Bytes)
    ensures WriteAt(WriteAt(file, offset, a), offset + |a|, b) == WriteAt(file, offset, a + b)
  {
    if a == [] {
      assert a + b == b;
    } else if b == [] {
      assert a + b == a;
    } else {
      WriteAdjacentBytes(file, offset, a, b);
    }
  }

  lemma WriteAdjacentBytes(file: Bytes, offset: nat, a: Bytes, b: Bytes)
    requires a != [] && b != []
    ensures WriteAt(WriteAt(file, offset, a), offset + |a|, b) == WriteAt(file, offset, a + b)
  {
    var f := WriteAt(file, offset, a);
    var r, w := WriteAt(f, offset + |a|, b), WriteAt(file, offset, a + b);
    assert |r| == |w|;
    forall i | 0 <= i < |r| ensures r[i] == w[i] {
      WriteByte(f, offset + |a|, b, i);
      if i < |f| { WriteByte(file, offset, a, i); }
      WriteByte(file, offset, a + b, i);
    }
  }

  /** The same for two parts of one buffer. */
  lemma WriteMore(file: Bytes, offset: nat, data: Bytes, done: nat, n: nat, at: nat)
    requires done + n <= |data| && at == offset + done
    ensures WriteAt(WriteAt(file, offset, data[..done]), at, data[done..done + n])
         == WriteAt(file, offset, data[..done + n])
  {
    WriteAdjacent(file, offset, data[..done], data[done..done + n]);
    assert data[..done] + data[done..done + n] == data[..done + n];
  }

  /** How far the write loop is after `k` pieces. */
  predicate AfterPieces(size: nat, done: nat, k: nat) {
    k <= Pieces(size) && done == if k == Pieces(size) then size else PieceStart(k)
  }

  lemma PieceEnds(size: nat, k: nat)
    requires PieceStart(k) < size
    ensures AfterPieces(size, PieceStart(k) + Min(size - PieceStart(k), BYTES_PER_RPC), k + 1)
  {
    PieceOrder(k, 0);
    PiecesExactly(size, k);
    PiecesExactly(size, k + 1);
  }

  lemma PieceInRange(offset: nat, size: nat, k: nat)
    requires PieceStart(k) < size && WriteInRange(offset, size)
    ensures CallOffset(offset, PieceStart(k)) == offset + PieceStart(k)
  {
    PieceOrder(k, LastPiece(size));
    LastPieceCovers(size);
  }

  /** One turn of the write loop. */
  lemma WriteTurn(before: Bytes, offset: nat, data: Bytes, done: nat, n: nat, k: nat)
    requires done < |data| && AfterPieces(|data|, done, k) && n == Min(|data| - done, BYTES_PER_RPC)
    ensures AfterPieces(|data|, done + n, k + 1)
    ensures WriteInRange(offset, |data|) ==>
              WriteAt(WriteAt(before, offset, data[..done]), CallOffset(offset, done), data[done..done + n])
              == WriteAt(before, offset, data[..done + n])
  {
    PieceEnds(|data|, k);
    if WriteInRange(offset, |data|) {
      PieceInRange(offset, |data|, k);
      WriteMore(before, offset, data, done, n, CallOffset(offset, done));
    }
  }

  lemma NextWrite(before: Bytes, written: Bytes, offset: nat, data: Bytes, done: nat, n: nat, k: nat)
    requires done < |data| && AfterPieces(|data|, done, k) && n == Min(|data| - done, BYTES_PER_RPC)
    requires WriteInRange(offset, |data|) && written == WriteAt(before, offset, data[..done])
    ensures WriteFrom(written, offset, data, done)
         == WriteFrom(WriteAt(before, offset, data[..done + n]), offset, data, done + n)
  {
    WriteTurn(before, offset, data, done, n, k);
  }

  /** With the first `k` pieces written as by one write, the rest makes it one write of everything. */
  lemma {:induction false} WriteFromCorrect(file: Bytes, written: Bytes, offset: nat, data: Bytes, done: nat, k: nat)
    requires WriteInRange(offset, |data|) && done <= |data| && AfterPieces(|data|, done, k)
    requires written == WriteAt(file, offset, data[..done])
    ensures WriteFrom(written, offset, data, done) == WriteAt(file, offset, data)
    decreases |data| - done
  {
    if done == |data| {
      assert data[..done] == data;
    } else {
      var n := Min(|data| - done, BYTES_PER_RPC);
      NextWrite(file, written, offset, data, done, n, k);
      WriteTurn(file, offset, data, done, n, k);
      WriteFromCorrect(file, WriteAt(file, offset, data[..done + n]), offset, data, done + n, k + 1);
    }
  }

  lemma WriteCorrect(file: Bytes, offset: nat, data: Bytes)
    requires WriteInRange(offset, |data|)
    ensures ChunkedWrite(file, offset, data) == WriteAt(file, offset, data)
  {
    if data != [] {
      assert data[..0] == [];
      WriteFromCorrect(file, file, offset, data, 0, 0);
    }
  }

  /** A write whose last piece starts at 4 GiB or beyond never reaches that piece's place. */
  lemma {:induction false} WriteStaysShort(file: Bytes, offset: nat, data: Bytes, k: nat, q: nat)
    requires PieceStart(k) < |data| <= PieceStart(q) + BYTES_PER_RPC
    requires |file| <= offset + PieceStart(q) && offset + PieceStart(q) >= UINT32_RANGE
    ensures |WriteFrom(file, offset, data, PieceStart(k))| <= offset + PieceStart(q)
    decreases |data| - PieceStart(k)
  {
    PieceOrder(k, q);
    var done := PieceStart(k);
    var n := Min(|data| - done, BYTES_PER_RPC);
    var file' := WriteAt(file, CallOffset(offset, done), data[done..done + n]);
    WrappedEnd(offset, k, q);
    if done + n < |data| {
      WriteStaysShort(file', offset, data, k + 1, q);
    }
  }

  /** Each piece lands before the last place, the last one because its offset wraps. */
  lemma WrappedEnd(offset: nat, k: nat, q: nat)
    requires k <= q && offset + PieceStart(q) >= UINT32_RANGE
    ensures CallOffset(offset, PieceStart(k)) + BYTES_PER_RPC <= offset + PieceStart(q)
  {
    PieceOrder(k, q);
    var at := offset + PieceStart(q);
    if k == q {
      assert at - at % UINT32_RANGE >= UINT32_RANGE;
    }
  }

  /** Chunked writing is one positional write, whatever the file, if and only if it stays in range. */
  lemma WriteExactly(offset: nat, size: nat)
    ensures (forall file: Bytes, data: Bytes :: |data| == size ==>
               ChunkedWrite(file, offset, data) == WriteAt(file, offset, data))
            <==> WriteInRange(offset, size)
  {
    if WriteInRange(offset, size) {
      forall file: Bytes, data: Bytes | |data| == size
        ensures ChunkedWrite(file, offset, data) == WriteAt(file, offset, data)
      {
        WriteCorrect(file, offset, data);
      }
    } else {
      var data := Zeros(size);
      LastPieceCovers(size);
      WriteStaysShort([], offset, data, 0, LastPiece(size));
      assert ChunkedWrite([], offset, data) != WriteAt([], offset, data);
    }
  }

  /** What was written is read back. */
  lemma ReadAfterWrite(file: Bytes, offset: nat, data: Bytes)
    requires WriteInRange(offset, |data|)
    ensures ChunkedRead(ChunkedWrite(file, offset, data), offset, |data|) == data
  {
    WriteCorrect(file, offset, data);
    var written := WriteAt(file, offset, data);
    if data == [] {
      assert ChunkedRead(written, offset, 0) == [];
    } else {
      assert Available(|written|, offset, |data|) == |data|;
      ReadCorrect(written, offset, |data|);
      assert written[offset..offset + |data|] == data;
    }
  }

  /** A file on the server. */
  class File {
    var content: Bytes

    method Write(offset: nat, data: Bytes)
      modifies this
      ensures content == WriteAt(old(content), offset, data)
    {
      content := WriteAt(content, offset, data);
    }
  }

  /** One call of the write loop. */
  method WritePiece(file: File, data: Bytes, offset: nat, done: nat, ghost before: Bytes, ghost k: nat)
    returns (done': nat)
    requires done < |data| && AfterPieces(|data|, done, k)
    requires WriteInRange(offset, |data|) ==> file.content == WriteAt(before, offset, data[..done])
    modifies file
    ensures done < done' <= |data| && AfterPieces(|data|, done', k + 1)
    ensures WriteFrom(file.content, offset, data, done') == WriteFrom(old(file.content), offset, data, done)
    ensures WriteInRange(offset, |data|) ==> file.content == WriteAt(before, offset, data[..done'])
  {
    var n := Min(|data| - done, BYTES_PER_RPC);
    WriteTurn(before, offset, data, done, n, k);
    file.Write(CallOffset(offset, done), data[done..done + n]);
    done' := done + n;
  }

  lemma WrittenAfterPieces(size: nat, k: nat)
    requires AfterPieces(size, size, k)
    ensures k == Pieces(size)
  {
    PiecesExactly(size, k);
  }

  /** The write handler; the call number `failsAt`, if any, fails without writing. */
  method BlockingWrite(file: File, data: Bytes, offset: nat, failsAt: Option<nat>)
    returns (ok: bool, bytesWritten: nat)
    modifies file
    ensures ok <==> failsAt.None? || failsAt.value >= Pieces(|data|)
    ensures bytesWritten == (if ok then |data| else PieceStart(failsAt.value)) <= |data|
    ensures ok ==> file.content == ChunkedWrite(old(file.content), offset, data)
    ensures WriteInRange(offset, |data|) ==>
              file.content == WriteAt(old(file.content), offset, data[..bytesWritten])
  {
    bytesWritten := 0;
    ghost var before := file.content;
    var calls: nat := 0;
    assert data[..0] == [];
    while bytesWritten < |data|
      invariant bytesWritten <= |data| && AfterPieces(|data|, bytesWritten, calls)
      invariant failsAt.Some? ==> calls <= failsAt.value
      invariant WriteFrom(file.content, offset, data, bytesWritten) == ChunkedWrite(before, offset, data)
      invariant WriteInRange(offset, |data|) ==> file.content == WriteAt(before, offset, data[..bytesWritten])
    {
      if failsAt == Some(calls) {
        return false, bytesWritten;
      }
      bytesWritten := WritePiece(file, data, offset, bytesWritten, before, calls);
      calls := calls + 1;
    }
    WrittenAfterPieces(|data|, calls);
    return true, bytesWritten;
  }
}
