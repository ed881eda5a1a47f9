# Verified model of a QUIC/TCP network file system

quic-nfs is an NFS version 2 client and server whose remote procedure calls travel over TCP
or over the multiplexed streams of QUIC connections. This project models its hard core in
Dafny and proves what it is for:

* **Calls get their own replies.** No transaction id is ever compared; a reply belongs to a
  call because of which stream, or which turn of a mutex, it travels on. The QUIC and the TCP
  client/server pairs are state machines with any number of threads, any interleaving and any
  cutting of bytes into reads. Both are shown to refine one specification of atomic calls
  (`AtomicRpc`) by forward simulation over whole runs, and a trace of that specification
  returns to each caller the reply of the execution of exactly its call.
* **Calls are completed, or one can say why not.** From every state of every run, a call that holds
  a QUIC stream can be completed if and only if it was not executed without a reply; over TCP, one
  not executed yet if and only if the server's thread still runs. Waiting calls get their streams
  in the order in which they began.
* **Record marking survives any chunking.** The incremental QUIC receiver, the blocking TCP
  receiver and the sender are each given a specification function; round trip, independence of
  chunking, self-delimitation and the agreement of the two receivers are proved on all inputs.
* **Directory sessions are invisible.** READDIR answers from cached, expiring sessions equal a
  pager that knows only directory, cookie and count, and the client's paging loop ends exactly
  when every entry fits into a page.
* **Chunked file access is one positional access**, exactly while the 32-bit offset field suffices.
* **Handles keep naming their files.** The inode cache, a list in which newer entries hide older
  ones, agrees with the file system over runs of MNT, GETATTR, LOOKUP, CREATE, REMOVE and LINK, exactly
  while no REMOVE takes away a name that a cached path uses elsewhere: as its file under another
  spelling, or as a symbolic link on its way.

## How it is arranged

Every operation has a specification function on values. Code that updates state in place is a
class or a method with a loop, proved to compute that function; the laws are lemmas about the
functions, so they hold of the classes.

| file | content |
|---|---|
| `Common.dfy`, `AssocList.dfy` | options, bytes, concatenation; lists searched from the head for a key |
| `RecordMarking.dfy`, `ReceivingContext.dfy` | fragments, the incremental receiver byte by byte, and the context object it updates |
| `TransferLoop.dfy` | the send loops with their `size_t` counter |
| `TcpRecordMarking.dfy` | the blocking receiver's parse of a record, and its agreement with the other receiver |
| `TcpSocket.dfy` | the receive loop with its `size_t` counter, and the receipt of a record on top of it |
| `AtomicRpc.dfy` | the meaning of remote calls |
| `QuicRpc.dfy`, `QuicRpcProof.dfy` | the QUIC protocol as a state machine, and its proof |
| `QuicProgress.dfy`, `TcpProgress.dfy` | which calls can still be completed |
| `StreamAllocation.dfy`, `QuicEndpoints.dfy` | the stream pool, the linked queue, and the callbacks of both endpoints, in place |
| `TcpRpc.dfy` | the TCP protocol and its proof |
| `ReadDir.dfy` | directory pages, sessions, and the client's loop |
| `ChunkedIo.dfy` | reading and writing in pieces of 5000 bytes |
| `InodeCache.dfy` | the cache |
| `FileHandles.dfy`, `FileHandlesLaws.dfy` | the procedures that give out and use handles, and what each does to paths and files |
| `FileHandlesProof.dfy` | what holds of them over runs |

## What the code does not do as its comments say

Where code and comments part, the model follows the code. Each case has the exact condition.

* The send loops store a signed result in a `size_t`, so the test for a negative result never
  fires: a failing call is reported as success (`TransferLoop.FailureReportedAsSuccess`). The
  buffer is delivered and success reported if and only if every call takes at least one byte
  (`TransferLoop.DeliveredExactly`).
* The receive loop does the same: a failing recv is success with the buffer as it was, or makes
  later bytes overwrite earlier ones (`TcpSocket.FailedRecvIsSuccess`,
  `TcpSocket.FailedRecvGoesBack`), so that a record can come out of what the stack held
  (`TcpSocket.RecordOutOfNothing`). The buffer holds the next bytes and success is reported,
  whatever arrives, if and only if every call hands over at least one byte
  (`TcpSocket.FilledExactly`). If no call fails, a record is returned exactly when it is complete
  (`TcpSocket.RecordExactly`).
* A call that the server cannot decode is not answered, and nobody tells the caller, who waits for
  ever (`QuicProgress.CompletableExactly`). Over TCP the server's thread also ends with the connection
  open, and so all callers that wait for the mutex wait for ever
  (`TcpProgress.NoneCompletesAfterUnanswered`).
* A record whose last fragment is empty is never completed on QUIC. A record whose first two
  fragments are empty fails there with code 3, because resizing an allocated buffer to no bytes
  gives NULL in the GNU C library the program is built with; the TCP receiver goes on, and returns
  NULL only for a record of an even number of empty fragments (`TcpRecordMarking.GatheredExactly`).
  The receivers agree if and only if the last fragment carries data and the first two are not both
  empty (`TcpRecordMarking.ReceiversAgreeExactly`); otherwise bytes that follow end in code 3 or 4
  (`TcpRecordMarking.EmptyFragmentsFail`). Senders never write empty fragments.
* The comparison of two clients compares the second group id with itself, so clients that differ
  in it share a session: they are the same client if and only if machine name and user id agree
  (`ReadDir.SameClientExactly`). Pages do not depend on it.
* A directory entry larger than the requested count makes the paging loop run forever; it ends if
  and only if every entry fits (`ReadDir.ListingEndsExactly`).
* READ and WRITE offsets are 32 bits wide. A chunked access is right for all contents if and only if
  its last piece starts below 4 GiB, or, for reading nothing, the wrapped offset finds nothing
  either (`ChunkedIo.ReadExactly`, `ChunkedIo.WriteExactly`).
* A LOOKUP that fails at its last step drops a mapping even when an earlier request made it. A
  failed LOOKUP restores the cache if and only if the file was unknown or that step was not reached
  (`FileHandlesProof.FailedLookupRestoresExactly`).
* A REMOVE of the path a file is mapped to makes its handle unusable even if the file has other
  names. In every state, a request loses the last mapping of an inode number if and only if
  `FileHandlesProof.Forgets` holds before it (`FileHandlesProof.ForgottenExactly`).
* REMOVE drops the mapping by the string it built, while LOOKUP may have mapped the file under
  another spelling or through a symbolic link: after LOOKUP of `./a` and REMOVE of `a`, or LOOKUP of
  `l/a` and REMOVE of the link `l`, a mapping names nothing (`FileHandlesProof.DotSlashDisagrees`,
  `FileHandlesProof.LinkOnTheWayDisagrees`). Cache and file system agree throughout a run if and only
  if no REMOVE does this (`FileHandlesProof.CacheAgreesExactly`). When a file is then created under the
  old name, GETATTR on the old handle answers with the new file's attributes
  (`FileHandlesProof.OldHandleRun`).

## Model

| member | source | states |
|---|---|---|
| `RecordMarking.HeaderDecodes` | src/transport/quic/quic_record_marking.c:361-373 | the header the sender builds decodes to the same last-fragment flag and size, for every size up to 0x7FFFFFFF |
| `RecordMarking.NetworkByteOrder` | src/transport/quic/quic_record_marking.c:361-373 | the flag is the first bit of the first byte and the other 31 bits are the size, most significant byte first; and every four bytes are the header of the flag and size they decode to |
| `RecordMarking.Fragments` | src/transport/quic/quic_record_marking.c:38-71 | the sender cuts any non-empty record into non-empty fragments within the limit, only the final one flagged, whose payloads joined are the record |
| `RecordMarking.TurnIsFeed` | src/transport/quic/quic_record_marking.c:336-441 | one turn of the receive loop, which takes a piece as large as it comes, equals that many single bytes; every turn makes progress, zero-length fragments included |
| `RecordMarking.FeedAppend` | src/transport/quic/quic_record_marking.c:335-451 | feeding a and then b equals feeding a+b from any state whenever a neither completes the record nor fails; otherwise the rest is left over unprocessed |
| `RecordMarking.FeedKeepsValid` | src/transport/quic/quic_record_marking.c:335-441 | any bytes at all keep the context consistent |
| `RecordMarking.FeedWire` | src/transport/quic/quic_record_marking.c:335-441 | every well-formed record that does not start with two empty fragments is consumed to its last byte with its payloads joined; it is complete exactly when its last fragment carries data |
| `RecordMarking.FeedEmptyStart` | src/transport/quic/quic_record_marking.c:404-419 | a record that does start so is never complete, and fails exactly when a third fragment or other bytes follow, with the buffer gone and those bytes left |
| `RecordMarking.EncodeCompletes` | src/transport/quic/quic_record_marking.c:38-71 | what the sender writes for a non-empty record of any length is exactly one record to the receiver |
| `RecordMarking.CompleteOnlyAtLastByte` | src/transport/quic/quic_record_marking.c:433-451 | a receiver within a record has it complete if and only if nothing of it remains |
| `RecordMarking.FeedWithinRecord` | src/transport/quic/quic_record_marking.c:335-441 | bytes that stay within a record are all consumed |
| `RecordMarking.ReceiveIsFeed` | src/transport/quic/quic_record_marking.c:314-455 | the reads of one callback leave the state of feeding their bytes at once; the code is 3 exactly when a fragment cannot be saved, and 4 exactly when bytes follow the record within the same read |
| `RecordMarking.ReceiveExactly` | src/transport/quic/quic_record_marking.c:314-455 | state, code and number of reads used, for any reads: those up to the first that is empty (code 2), cannot be saved (3), or completes the record (4 if it has more bytes, else 0), or all of them |
| `RecordMarking.ChunkingIndependent` | src/transport/quic/quic_record_marking.c:314-455 | two ways of cutting the same bytes into reads leave the same context, and both fail with code 3 or neither does |
| `RecordMarking.ReceiveWithinRecord` | src/transport/quic/quic_record_marking.c:314-455 | reads within one record never fail, are all used, and complete it exactly when nothing is left |
| `RecordMarking.ReceiveStopsAtEnd` | src/transport/quic/quic_record_marking.c:443-451 | a record that ends with the last read is not noticed earlier |
| `RecordMarking.RoundTrip` | src/transport/quic/quic_record_marking.c:38-71 | for every non-empty record and every cut of the sender's output into reads, the receiver is complete after the last read and not after fewer, with the record as its payload |
| `ReceivingContext.RmReceivingContext.constructor` | src/transport/quic/quic_record_marking.c:82-107 | a new context is in the initial state |
| `ReceivingContext.RmReceivingContext.ResetForNextFragment` | src/transport/quic/quic_record_marking.c:115-130 | everything but the accumulated payloads is cleared |
| `ReceivingContext.RmReceivingContext.CopyHeaderBytes` | src/transport/quic/quic_record_marking.c:348-373 | header bytes are appended, and a full header is decoded |
| `ReceivingContext.RmReceivingContext.SaveFragment` | src/transport/quic/quic_record_marking.c:403-440 | the payload joins the accumulated ones and the record is complete or the context reset; resizing an allocated buffer to no bytes loses it and fails |
| `ReceivingContext.RmReceivingContext.ProcessPiece` | src/transport/quic/quic_record_marking.c:336-441 | one turn of the inner loop on the object is the turn of the specification |
| `ReceivingContext.RmReceivingContext.ProcessTurn` | src/transport/quic/quic_record_marking.c:336-441 | and takes from the bytes left what feeding them one by one would, with progress |
| `ReceivingContext.RmReceivingContext.ProcessRead` | src/transport/quic/quic_record_marking.c:335-441 | the inner loop ends on any bytes and leaves the object in the state of feeding them one by one, with the rest unprocessed |
| `ReceivingContext.RmReceivingContext.ReceiveAvailableBytes` | src/transport/quic/quic_record_marking.c:314-455 | the outer loop gives the state, the code and the number of reads used of the specification, error codes 2, 3 and 4 included |
| `TransferLoop.AdvanceWraps` | src/transport/quic/quic_record_marking.c:15-25 | the counter moves as unsigned 64-bit arithmetic has it, for every signed result |
| `TransferLoop.NeverCatchesUp` | src/transport/quic/quic_record_marking.c:13-26 | once the counter has fallen back, no results whatever make the windows cover the buffer in order |
| `TransferLoop.DeliveredExactly` | src/transport/quic/quic_record_marking.c:11-29 | the whole buffer goes out once, in order, and success is reported, if and only if every call takes at least one byte |
| `TransferLoop.FailureReportedAsSuccess` | src/transport/tcp/tcp_record_marking.c:8-25 | a failing first call is reported as success with nothing sent |
| `TransferLoop.TilesSendAll` | src/transport/tcp/tcp_record_marking.c:8-25 | windows that cover the buffer put exactly its bytes on the stream |
| `TransferLoop.Sink.SendBytes` | src/transport/tcp/tcp_record_marking.c:8-25 | the loop, for any results of its calls, has the code, the bytes on the stream and the results left of the specification |
| `TransferLoop.Sink.SendFragment` | src/transport/tcp/tcp_record_marking.c:41-60 | header, then data; codes 1 and 2 tell which failed |
| `TransferLoop.Sink.SendNext` | src/transport/tcp/tcp_record_marking.c:37-63 | a turn sends the next fragment, after which the rest of the record is still to be sent, or the record ends in its failure |
| `TransferLoop.Sink.SendRmRecord` | src/transport/tcp/tcp_record_marking.c:34-66 | the record loop sends the fragments of the specification, or stops in the one that fails |
| `TransferLoop.ReportsTruthfully` | src/transport/tcp/tcp_record_marking.c:8-25 | if no call fails, success is reported exactly when each takes something until the end; otherwise the loop waits after the last result, or one was 0 |
| `TransferLoop.SentSoFar` | src/transport/tcp/tcp_record_marking.c:8-25 | if no call fails, the bytes sent are those of the buffer up to some place, which is its end exactly when success is reported |
| `TransferLoop.SentFragment` | src/transport/tcp/tcp_record_marking.c:41-60 | for a fragment: code 1 if that place is in the header, 2 if it is in the data, 0 at the end |
| `TransferLoop.SentExactly` | src/transport/tcp/tcp_record_marking.c:34-66 | if no call fails, what goes out for a record is a prefix of its encoding, and all of it if and only if success is reported |
| `TransferLoop.CutStep` | src/transport/tcp/tcp_record_marking.c:37-44 | the next turn's fragment is the first of what is left |
| `TransferLoop.AcceptedRecordIsSent` | src/transport/quic/quic_record_marking.c:38-71 | if every call takes at least one byte, the stream holds exactly the encoding of the record and success is reported |
| `TransferLoop.AcceptingSendsRecord` | src/transport/quic/quic_record_marking.c:38-71 | as many calls as there are bytes, each taking something, suffice |
| `TcpRecordMarking.WantedNothingExactlyAtEnd` | src/transport/tcp/tcp_record_marking.c:108-140 | the receiver asks for no more bytes if and only if the record is complete |
| `TcpRecordMarking.WantedWithinRecord` | src/transport/tcp/tcp_record_marking.c:108-140 | while its record is incomplete the receiver asks for bytes, and never for more than belong to it |
| `TcpRecordMarking.ParseAppend` | src/transport/tcp/tcp_record_marking.c:103-145 | bytes after a record are left alone |
| `TcpRecordMarking.ParseWire` | src/transport/tcp/tcp_record_marking.c:103-145 | any well-formed record, empty fragments included, is received to its end, with the buffer its fragments give, and what follows it is left |
| `TcpRecordMarking.ParseFindsRecord` | src/transport/tcp/tcp_record_marking.c:103-145 | and nothing else is received: the bytes are those of some well-formed record and what is left, and the buffer is the one its fragments give |
| `TcpRecordMarking.GatheredExactly` | src/transport/tcp/tcp_record_marking.c:129-144 | that buffer is the joined payload, and NULL exactly when there is none and the number of fragments is even |
| `TcpRecordMarking.ParseEncoded` | src/transport/tcp/tcp_record_marking.c:103-145 | what is sent for a non-empty record is received as that record, whatever follows |
| `TcpRecordMarking.ParseWithinRecord` | src/transport/tcp/tcp_record_marking.c:103-145 | a sent record is received at its last byte and not before |
| `TcpRecordMarking.SelfDelimiting` | src/transport/tcp/tcp_record_marking.c:34-66 | repeated receipt over the joined encodings of any list of non-empty records gives that list and leaves no bytes |
| `TcpRecordMarking.QuicReceives` | src/transport/quic/quic_record_marking.c:314-455 | what the incremental receiver makes of any well-formed record under any chunking: code, completeness and payload |
| `TcpRecordMarking.ReceiversAgreeExactly` | src/transport/tcp/tcp_record_marking.c:103-145 | on every well-formed record and under every chunking the QUIC receiver yields the TCP receiver's record if and only if the last fragment carries data and the first two are not both empty |
| `TcpRecordMarking.EmptyFragmentsFail` | src/transport/quic/quic_record_marking.c:404-448 | otherwise the next bytes end in error 3, if the first two fragments are empty, or 4 |
| `TcpRecordMarking.OnlyTcpAccepts` | src/transport/tcp/tcp_record_marking.c:129-142 | a record that ends in data after two empty fragments is received over TCP and fails over QUIC |
| `TcpRecordMarking.OnlyTcpAcceptsSome` | src/transport/quic/quic_record_marking.c:411-419 | the shortest such record: two empty fragments and one byte |
| `TcpSocket.FilledExactly` | src/transport/tcp/tcp_record_marking.c:74-92 | for all bytes that arrive and all former contents, the buffer holds the next n bytes and 0 is returned if and only if every call hands over at least one byte |
| `TcpSocket.LaggingTakesTooMany` | src/transport/tcp/tcp_record_marking.c:76-89 | once the counter has fallen behind what is filled, a buffer that is full has taken more bytes than its size |
| `TcpSocket.FailedRecvIsSuccess` | src/transport/tcp/tcp_record_marking.c:78-91 | a failing first call returns success with the buffer as it was and nothing received |
| `TcpSocket.FailedRecvGoesBack` | src/transport/tcp/tcp_record_marking.c:78-88 | a failing later call continues where earlier bytes were put |
| `TcpSocket.Socket.Recv` | src/transport/tcp/tcp_record_marking.c:77-78 | the bytes handed over are put at the counter's place, and nothing else in the buffer changes |
| `TcpSocket.Socket.ReceiveBytes` | src/transport/tcp/tcp_record_marking.c:74-92 | the loop on the buffer in place has the code, buffer, bytes left and results left of the specification, for any results of its calls |
| `TcpSocket.NotHandedOver` | src/transport/tcp/tcp_record_marking.c:74-92 | if no call fails and the buffer is not filled, the code is 2, after a call that found nothing, or the loop waits |
| `TcpSocket.ReceivedSoFar` | src/transport/tcp/tcp_record_marking.c:74-92 | if no call fails, the buffer has a prefix of what arrives in place and is otherwise as before, and only that prefix is taken |
| `TcpSocket.RecordIsParsed` | src/transport/tcp/tcp_record_marking.c:103-145 | if every call hands over at least one byte until the record is complete, the record is the parse of the incoming bytes, whatever fresh memory held and whatever the later calls report |
| `TcpSocket.RecordExactly` | src/transport/tcp/tcp_record_marking.c:103-145 | if no call fails, the result is the parsed record and the bytes after it if every call until its end hands over something, and otherwise NULL, or no result because a call never returns |
| `TcpSocket.CutOffIsNoRecord` | src/transport/tcp/tcp_record_marking.c:131-136 | if no call fails, a buffer that is returned is that of a complete record at the front of the connection, and a record that is cut off gives NULL |
| `TcpSocket.AcceptingReceivesRecord` | src/transport/tcp/tcp_record_marking.c:103-145 | as many calls as there are bytes, none failing, suffice for a record that is there |
| `TcpSocket.RecordOutOfNothing` | src/transport/tcp/tcp_record_marking.c:110-126 | one failing call and four bytes left on the stack make a record with nothing received |
| `TcpSocket.Socket.ReceiveRmRecord` | src/transport/tcp/tcp_record_marking.c:103-145 | the record loop, with fresh memory for each header and payload, has the record, the bytes left and the results left of the specification, for any results of its calls; so NULL for a record that is cut off (`TcpSocket.CutOffIsNoRecord`) |
| `AtomicRpc.RepliesAnswerOwnCalls` | src/transport/quic/quic_rpc_client.c:435-533 | in every trace of atomic calls one can assign each execution to one call, invoked before it with the executed bytes, so that every reply returned is that of the call's own execution |
| `AtomicRpc.MatchStep` | src/transport/quic/quic_rpc_client.c:435-533 | every event extends such an assignment |
| `QuicRpcProof.StepSimulates` | src/transport/quic/quic_rpc_client.c:435-533 | every step of threads, event loops and server is a step of atomic calls and keeps the simulation |
| `QuicRpcProof.StepBegin` | src/transport/quic/quic_rpc_client.c:435-480 | starting a call and queueing its context is an invocation; the call stands behind all that wait (`QuicRpcProof.BeginsBehind`) |
| `QuicRpcProof.BeginsBehind` | src/transport/quic/stream_allocation.c:14-43 | from every state of the simulation, a call that begins waits behind every call of its connection that waits |
| `QuicRpcProof.CallsLeaveTheQueueInOrder` | src/transport/quic/stream_allocation.c:144-170 | in every run, a call is not past the queue before every call begun earlier on its connection is |
| `QuicRpcProof.StepAllocate` | src/transport/quic/stream_allocation.c:92-136 | whatever free or new stream the front of the queue is given, no other call holds it |
| `QuicRpcProof.StepGiveUp` | src/transport/quic/quic_rpc_client.c:486-492 | a call without a stream returns NULL and was never executed |
| `QuicRpcProof.StepRegister` | src/transport/quic/client_stream_context.c:71-90 | registering a context takes a stream that carries nothing |
| `QuicRpcProof.StepWrite` | src/transport/quic/quic_rpc_client.c:173-215 | a writable stream gets the call of its own context, once |
| `QuicRpcProof.StepServe` | src/transport/quic/quic_rpc_server.c:293-331 | a readable stream on the server is at most one execution, of a pending call with these very bytes, and is never an error |
| `QuicRpcProof.StepRead` | src/transport/quic/quic_rpc_client.c:113-171 | a readable stream on the client brings its context closer to the reply of its own call, and is never an error |
| `QuicRpcProof.StepUnregister` | src/transport/quic/quic_rpc_client.c:510-528 | a finished context holds the reply of its call's execution |
| `QuicRpcProof.StepRelease` | src/transport/quic/quic_rpc_client.c:530-532 | the stream given back is quiet |
| `QuicRpcProof.QuicRefinesAtomicRpc` | src/transport/quic/quic_rpc_client.c:435-533 | every run over QUIC has the trace of a run of atomic calls |
| `QuicRpcProof.QuicRepliesAnswerOwnCalls` | src/transport/quic/quic_rpc_client.c:435-533 | in every run, for any threads, interleaving and chunking, each reply returned is the server's answer to exactly that invoker's call |
| `QuicRpcProof.StreamsAreExclusive` | src/transport/quic/streams.c:46-112 | in every reachable state the streams in use are exactly those held by calls, each by one; pools have at most 10 streams; registered contexts have distinct stream ids; no client was killed |
| `QuicRpcProof.NoDataFollowsARecord` | src/transport/quic/quic_record_marking.c:443-448 | in every reachable state the error for data following a record is out of reach on both sides |
| `QuicRpcProof.FailedReadEndsCall` | src/transport/quic/quic_rpc_client.c:144-159 | a read that did fail would finish its call without a reply and kill the client, and touch no other context |
| `QuicRpcProof.SentAtMostOnce` | src/transport/quic/quic_rpc_client.c:173-215 | in every run the record of a call is written at most once |
| `QuicRpcProof.FreeStreamIsQuiet` | src/transport/quic/streams.c:54-82 | a stream not in use carries no bytes, has no context and is held by nobody |
| `QuicProgress.Advance` | src/transport/quic/quic_rpc_client.c:486-533 | a call that holds a stream and is not unanswered has a step, enabled now, that brings it nearer to its end |
| `QuicProgress.Complete` | src/transport/quic/quic_rpc_client.c:486-533 | at most six such steps end it, and it returns the reply of its execution |
| `QuicProgress.StuckForever` | src/transport/quic/quic_rpc_client.c:399-420 | whatever happens, a call that was executed without a reply never ends |
| `QuicProgress.CompletableExactly` | src/transport/quic/quic_rpc_server.c:208-331 | a call that holds a stream can be completed if and only if it was not executed without a reply |
| `QuicProgress.AnsweredCallsComplete` | src/transport/quic/quic_rpc_client.c:435-533 | at the end of every run in which no execution of these bytes went unanswered, a call that holds a stream can be completed by at most six steps, with a reply |
| `QuicProgress.FrontCanBeServed` | src/transport/quic/stream_allocation.c:92-136 | in every reachable state the call at the front of the queue can be given any free stream, or a new one below the limit, or fail |
| `StreamAllocation.FirstFree` | src/transport/quic/streams.c:54-82 | the walk stops at the first stream not in use |
| `StreamAllocation.GrantCounts` | src/transport/quic/streams.c:46-112 | one more stream is in use exactly when one is granted; if creation works, one is granted exactly while fewer than 10 are in use |
| `StreamAllocation.GrantExactly` | src/transport/quic/streams.c:54-105 | a stream is asked for if and only if all are in use and there are not 10; the first free one is given out otherwise and only its flag changes |
| `StreamAllocation.GrantIsChoice` | src/transport/quic/streams.c:46-112 | what the walk does is among the choices the protocol allows |
| `StreamAllocation.FirstInQueueAreServed` | src/transport/quic/stream_allocation.c:144-170 | if streams can be created, the requests granted are the first of the queue, as many as 10 less those in use |
| `StreamAllocation.ServeQueueIsServeAll` | src/transport/quic/stream_allocation.c:144-170 | serving the queue front to back finishes every context once, in order, each with its grant |
| `StreamAllocation.StreamAllocator.Push` | src/transport/quic/stream_allocation.c:14-43 | the doubly linked list stays linked both ways and holds the old queue followed by the new context |
| `StreamAllocation.StreamAllocator.Pop` | src/transport/quic/stream_allocation.c:51-72 | the front entry leaves; an empty queue gives code 2 and stays |
| `StreamAllocation.StreamAllocator.GetAvailableAuxiliaryStream` | src/transport/quic/streams.c:46-112 | the walk and the creation, on the pool in place, give the grant of the specification |
| `StreamAllocation.StreamAllocator.AllocateStream` | src/transport/quic/stream_allocation.c:92-136 | one context is finished, with its stream or without |
| `StreamAllocation.StreamAllocator.AsyncStreamAllocatorCallback` | src/transport/quic/stream_allocation.c:144-170 | one callback empties the queue and finishes every waiting context once, in the order of arrival |
| `StreamAllocation.RequestStream` | src/transport/quic/quic_rpc_client.c:464-475 | pushing to the linked queue is what starting a call does to the queue of the protocol |
| `StreamAllocation.ServeRequest` | src/transport/quic/stream_allocation.c:149-167 | a turn of the callback is the allocation step of the protocol for the call at the front, with the same outcome |
| `QuicEndpoints.QuicServer.FindContext` | src/transport/quic/quic_record_marking.c:189-209 | the first context of the stream, or none |
| `QuicEndpoints.QuicServer.AddNewContext` | src/transport/quic/quic_record_marking.c:157-181 | a fresh object at the head of the list; the others are untouched |
| `QuicEndpoints.QuicServer.GetContext` | src/transport/quic/quic_record_marking.c:217-234 | the stream's context, created if there is none |
| `QuicEndpoints.QuicServer.RemoveContext` | src/transport/quic/quic_record_marking.c:242-289 | the first context of the stream is unlinked, the others keep their states |
| `QuicEndpoints.QuicServer.OnStreamReadable` | src/transport/quic/quic_rpc_server.c:293-331 | the callback on the objects does what the protocol's step does, and touches no other stream's context |
| `QuicEndpoints.StreamContext.constructor` | src/transport/quic/client_stream_context.c:11-38 | a new context has no receiving context and no flag set |
| `QuicEndpoints.StreamContext.OnWritable` | src/transport/quic/quic_rpc_client.c:185-212 | the call is written unless that was attempted before, and the attempt is marked |
| `QuicEndpoints.StreamContext.OnReadable` | src/transport/quic/quic_rpc_client.c:125-168 | the receiving context is created if there is none, reads what is available, and the flags are those of the protocol's step |
| `QuicEndpoints.QuicClientContexts.Add` | src/transport/quic/client_stream_context.c:71-90 | a context is registered at the head |
| `QuicEndpoints.QuicClientContexts.FindStreamContext` | src/transport/quic/client_stream_context.c:97-119 | the first context of the stream, or none |
| `QuicEndpoints.QuicClientContexts.RemoveStreamContext` | src/transport/quic/client_stream_context.c:128-183 | the first context of the stream is unlinked, and nothing else changes |
| `QuicEndpoints.QuicClientContexts.OnStreamWritable` | src/transport/quic/quic_rpc_client.c:173-215 | the callback writes what the protocol's step writes, and changes no other call's context |
| `QuicEndpoints.QuicClientContexts.OnStreamReadable` | src/transport/quic/quic_rpc_client.c:113-171 | the callback leaves the contexts of the protocol's step, and changes no other call's context or receiving context |
| `AssocList.AtPosition` | src/transport/quic/client_stream_context.c:97-183 | looking up, unlinking and writing all concern the first entry with the key |
| `AssocList.Find` | src/transport/quic/client_stream_context.c:97-119 | the walk from the head stops at that entry |
| `TcpRpc.StepServe` | src/transport/tcp/tcp_rpc_server.c:206-277 | received bytes are at most one execution, of the call inside the mutex, and exactly that at its last byte |
| `TcpRpc.StepReceive` | src/transport/tcp/tcp_record_marking.c:103-145 | bytes the thread receives are of the reply to its own call |
| `TcpRpc.StepUnlock` | src/transport/tcp/tcp_rpc_client.c:41-60 | when the mutex is released, the connection is empty in both directions |
| `TcpRpc.StepSimulates` | src/transport/tcp/tcp_rpc_client.c:12-66 | every step is a step of atomic calls and keeps the simulation |
| `TcpRpc.TcpRefinesAtomicRpc` | src/transport/tcp/tcp_rpc_client.c:41-60 | every run over one shared TCP connection has the trace of a run of the same atomic calls as over QUIC |
| `TcpRpc.TcpRepliesAnswerOwnCalls` | src/transport/tcp/tcp_rpc_server.c:303-339 | with any number of threads, every caller receives the reply to its own call |
| `TcpRpc.ServesUntilUnanswered` | src/transport/tcp/tcp_rpc_server.c:303-339 | in every run the server still serves the connection if and only if it answered every call it executed and none of them ended its thread |
| `TcpProgress.Advance` | src/transport/tcp/tcp_rpc_client.c:41-60 | a call that has the mutex, can take it or has given it back, and can be completed, has an enabled step that brings it nearer to its end |
| `TcpProgress.Complete` | src/transport/tcp/tcp_rpc_client.c:41-60 | such steps, first of the holder of the mutex and then of the call itself, end it |
| `TcpProgress.CompletableExactly` | src/transport/tcp/tcp_rpc_server.c:303-339 | a call not executed yet can be completed if and only if the server still serves the connection, one that is executed if and only if it was answered |
| `TcpProgress.AnsweredCallsComplete` | src/transport/tcp/tcp_rpc_server.c:303-339 | at the end of every run whose executions were all answered and went on, every call can be completed |
| `TcpProgress.NoneCompletesAfterUnanswered` | src/transport/tcp/tcp_rpc_server.c:329-336 | in every run with an execution that was not, no call that still waits for the mutex can ever be completed |
| `ReadDir.PageExactly` | src/nfs/server/directory_reading.c:487-559 | there is one page for a cookie and a count, and it is the longest run of entries whose sizes fit |
| `ReadDir.PageFromIsPage` | src/nfs/server/directory_reading.c:487-559 | the pager computes that page; the end is signalled exactly when the run reaches it with room left for another read |
| `ReadDir.PageOfIsPage` | src/nfs/server/directory_reading.c:479-559 | so does the pager that starts from a cookie |
| `ReadDir.ReadStreamIsPage` | src/nfs/server/directory_reading.c:487-559 | the loop that reads a directory stream from where it stands, advancing it entry by entry, gives the pager's page for that place unless it fails; when it fails is `ReadDir.ScanExactly` |
| `ReadDir.ScanExactly` | src/nfs/server/directory_reading.c:487-559 | for any failing calls: the loop fails if and only if a readdir or telldir that it comes to fails, with the code of the first; the end of the directory is no failure; and where the stream stands afterwards |
| `ReadDir.PositionMatters` | src/nfs/server/directory_reading.c:479-491 | streams that stand at different places give different pages, so that the seek before the loop is needed |
| `ReadDir.SameClientExactly` | src/nfs/server/directory_reading.c:161-182 | two clients are taken for the same if and only if machine name and user id agree, whatever the group ids |
| `ReadDir.IndexOf` | src/nfs/server/directory_reading.c:190-227 | the first session that matches client and directory |
| `ReadDir.ServeKeepsSessions` | src/nfs/server/directory_reading.c:438-585 | a request keeps one session for each client and directory, also when it fails |
| `ReadDir.ExpireExactly` | src/nfs/server/directory_reading.c:369-405 | the sessions kept are exactly those idle for at most 30 seconds |
| `ReadDir.ExpireInOrder` | src/nfs/server/directory_reading.c:369-405 | and they keep their order |
| `ReadDir.SessionsInEveryRun` | src/nfs/server/directory_reading.c:438-585 | over all runs of requests and clean-ups there is at most one session for each client and directory |
| `ReadDir.SessionsRefineStatelessPager` | src/nfs/server/directory_reading.c:438-585 | after any interleaving of any clients' requests and clean-ups, a page read from a session's stream, wherever earlier requests left it, is the one computed from directory, cookie and count alone |
| `ReadDir.AnswersExactly` | src/nfs/server/directory_reading.c:438-585 | after any run, a request fails with 3 exactly if there is no session and the directory cannot be opened, and is otherwise answered with the pager's page or the code of the first call that fails |
| `ReadDir.CalmRequestsSucceed` | src/nfs/server/directory_reading.c:438-585 | after any run, a request for a directory that is there succeeds if no call fails |
| `ReadDir.SessionsAfter` | src/nfs/server/directory_reading.c:438-585 | a request leaves the sessions of others as they are, in order; its own is gone after the end of the directory, has the time of a request that succeeded, and otherwise keeps its time or has that of its opening |
| `ReadDir.SessionInUseSurvives` | src/nfs/server/directory_reading.c:369-405 | a session outlives every clean-up within 30 seconds of a request that succeeded short of the end |
| `ReadDir.ReadDirServer.FindSession` | src/nfs/server/directory_reading.c:190-227 | the walk finds the first matching session |
| `ReadDir.ReadDirServer.AddNewSession` | src/nfs/server/directory_reading.c:129-156 | a session at the head with one more open directory stream, or nothing and code 2 |
| `ReadDir.ReadDirServer.RemoveSession` | src/nfs/server/directory_reading.c:283-347 | the first matching session is unlinked and its stream closed; code 6 if there is none |
| `ReadDir.ReadDirServer.Seek` | src/nfs/server/directory_reading.c:479-485 | the session's stream stands at the cookie |
| `ReadDir.ReadDirServer.ReadEntry` | src/nfs/server/directory_reading.c:490-496 | the entry where the stream stands, which moves past it; none at the end |
| `ReadDir.ReadDirServer.ReadEntries` | src/nfs/server/directory_reading.c:487-559 | the loop on the session's own stream gives page, error code and new position of the specification, wherever a system call fails (`ReadDir.ScanExactly`) |
| `ReadDir.ReadDirServer.GetSession` | src/nfs/server/directory_reading.c:237-273 | the session found or opened |
| `ReadDir.ReadDirServer.ReadFromDirectory` | src/nfs/server/directory_reading.c:438-585 | sessions and answer of the specification; open directory streams equal sessions on the list on every path |
| `ReadDir.ReadDirServer.CleanUpExpired` | src/nfs/server/directory_reading.c:369-405 | unlinking in place leaves exactly the specified sessions, and closes a stream for each one dropped |
| `ReadDir.ListIsPrefix` | src/fuse/handlers/fuse_readdir.c:40-118 | after any number of calls the joined pages are a prefix of the directory, and all of it when the loop is done |
| `ReadDir.ListProgress` | src/fuse/handlers/fuse_readdir.c:40-118 | while entries fit, each call brings at least one entry or the end |
| `ReadDir.StuckBeforeLargeEntry` | src/fuse/handlers/fuse_readdir.c:40-118 | an entry that does not fit is never passed |
| `ReadDir.ListingEndsExactly` | src/repl/handlers/ls.c:25-95 | the loop ends if and only if every entry fits, and then has the whole directory in order, nothing lost or repeated |
| `ReadDir.OthersDoNotDisturb` | src/repl/handlers/ls.c:25-95 | whatever other clients and the clean-up do between its calls, a loop whose calls succeed collects what it would alone |
| `ReadDir.AppendPage` | src/repl/handlers/ls.c:70-92 | the inner loop appends a page and keeps the last cookie |
| `ReadDir.ListDirectory` | src/repl/handlers/ls.c:25-95 | the outer loop has the joined pages of the specification, and gives up if and only if a call it comes to fails |
| `ChunkedIo.ReadCorrect` | src/fuse/handlers/fuse_read.c:32-104 | in range, the loop of READ calls returns exactly what one positional read does, at and past the end too |
| `ChunkedIo.ReadOutOfRange` | src/serialization/nfs/nfs.pb-c.h:468 | out of range, some file of that length is read wrongly |
| `ChunkedIo.ReadExactly` | src/fuse/handlers/fuse_read.c:32-104 | for all files of a length, chunked reading is one positional read if and only if it stays in range |
| `ChunkedIo.ReadCallsExactly` | src/fuse/handlers/fuse_read.c:34-104 | in range, there is one call for each piece of 5000 bytes of what there is to read, and one if there is nothing |
| `ChunkedIo.BlockingRead` | src/fuse/handlers/fuse_read.c:32-104 | the loop ends, returns the number of bytes read, and has put exactly them at the front of the buffer, whose rest is untouched; it fails if and only if one of the calls it makes does |
| `ChunkedIo.ReadTurn` | src/fuse/handlers/fuse_read.c:34-104 | a turn adds the next bytes of the result, and the loop goes on exactly while there are more |
| `ChunkedIo.WriteAdjacent` | src/nfs/server/file_management.c:226-268 | two positional writes that follow each other are one, gaps included |
| `ChunkedIo.WriteCorrect` | src/fuse/handlers/fuse_write.c:32-92 | in range, the loop of WRITE calls is one positional write of the whole buffer |
| `ChunkedIo.WriteStaysShort` | src/serialization/nfs/nfs.pb-c.h:536 | a write whose last piece starts at 4 GiB or beyond leaves the file too short |
| `ChunkedIo.WriteExactly` | src/fuse/handlers/fuse_write.c:32-92 | for all files and buffers of a size, chunked writing is one positional write if and only if it stays in range |
| `ChunkedIo.ReadAfterWrite` | src/fuse/handlers/fuse_write.c:32-92 | what was written in range is read back |
| `ChunkedIo.BlockingWrite` | src/fuse/handlers/fuse_write.c:32-92 | the loop fails if and only if one of its calls, one for each piece, does; on success the file is the specified one, and otherwise as after one write of the pieces before that call |
| `InodeCache.ResolveExactly` | src/nfs/server/inode_cache.c:176-204 | a lookup finds a mapping of the inode number exactly when there is one |
| `InodeCache.AddThenDrop` | src/nfs/server/inode_cache.c:33-98 | an added mapping hides the older ones, and dropping by its inode number undoes exactly the addition |
| `InodeCache.DropInodeExactly` | src/nfs/server/inode_cache.c:66-98 | exactly the resolved mapping is lost, and other inode numbers resolve as before |
| `InodeCache.DropPathExactly` | src/nfs/server/inode_cache.c:108-140 | one mapping to the path is lost if there is one; mappings to other paths stay |
| `InodeCache.FirstToExactly` | src/nfs/server/inode_cache.c:108-140 | there is a first mapping to a path exactly when the path is mapped |
| `InodeCache.RepathBack` | src/nfs/server/inode_cache.c:150-170 | moving a mapping to an unused path and back restores the cache |
| `InodeCache.Cache.Add` | src/nfs/server/inode_cache.c:33-56 | the mapping is at the head |
| `InodeCache.Cache.RemoveByInode` | src/nfs/server/inode_cache.c:66-98 | the first mapping of the inode number is unlinked, and the result says whether there was one; an empty list is dereferenced, so callers must not pass one |
| `InodeCache.Cache.RemoveByPath` | src/nfs/server/inode_cache.c:108-140 | the same for a path |
| `InodeCache.Cache.UpdatePath` | src/nfs/server/inode_cache.c:150-170 | the first mapping to the path is moved |
| `InodeCache.Cache.Find` | src/nfs/server/inode_cache.c:176-204 | both lookups give the first mapping of the inode number |
| `FileHandlesProof.StepAgreesExactly` | src/nfs/server/file_management.c:32-58 | from a state in which each mapping's path names its inode number and only directories are mapped twice, a request, failing or not, leads to one if and only if it does not remove a name that a mapping uses elsewhere |
| `FileHandlesProof.UnlinkAgreesExactly` | src/nfs/server/procedures/nfsproc_remove.c:242-307 | dropping the first mapping to the removed path leaves cache and file system in agreement if and only if no other mapping leads to the name, under another spelling, or through it, as a link |
| `FileHandlesProof.LookupKeepsGood` | src/nfs/server/procedures/nfsproc_lookup.c:208-247 | a LOOKUP maps a file only if it is not mapped |
| `FileHandlesProof.CreateKeepsGood` | src/nfs/server/procedures/nfsproc_create.c:254-399 | a CREATE keeps the agreement wherever it fails |
| `FileHandlesProof.CacheAgreesExactly` | src/nfs/server/inode_cache.c:33-140 | in every run from an empty cache, each mapping's path names its inode number all the time if and only if no REMOVE takes away a name that a mapping uses elsewhere |
| `FileHandlesProof.PlainPathsAgree` | src/nfs/server/inode_cache.c:33-140 | where every path has one spelling and passes no link, all runs agree |
| `FileHandlesProof.LookupThenRemoveDisagree` | src/path_building/path_building.c:10-19 | looking a file up under one name and removing another that leads to it, or a link on its way, leaves a mapping that names nothing |
| `FileHandlesProof.DotSlashDisagrees` | src/path_building/path_building.c:10-19 | such a run: MNT, LOOKUP of `./a`, REMOVE of `a` |
| `FileHandlesProof.LinkOnTheWayDisagrees` | src/nfs/server/procedures/nfsproc_remove.c:180-243 | such a run: MNT, LOOKUP of `l/a` behind the symbolic link `l`, REMOVE of `l` |
| `FileHandlesProof.RemoveForgets` | src/nfs/server/procedures/nfsproc_remove.c:242-307 | in every state, a REMOVE makes an inode number unresolvable if and only if the first mapping to the removed path is its one mapping |
| `FileHandlesProof.LookupForgets` | src/nfs/server/procedures/nfsproc_lookup.c:228-247 | a LOOKUP does so if and only if it finds the one mapping and then fails |
| `FileHandlesProof.ForgottenExactly` | src/nfs/server/inode_cache.c:66-140 | in every state, a request loses an inode number if and only if the condition `Forgets` holds before it |
| `FileHandlesProof.CreateAddsOrRestores` | src/nfs/server/procedures/nfsproc_create.c:364-399 | a CREATE that succeeds made the file where there was none and its handle resolves to that path; one that fails anywhere leaves the cache as it was |
| `FileHandlesProof.FailedLookupRestoresExactly` | src/nfs/server/procedures/nfsproc_lookup.c:228-247 | a failed LOOKUP leaves the cache as it was if and only if it does not drop an older mapping |
| `FileHandlesProof.GrantedNamesTheFile` | src/nfs/server/file_management.c:32-58 | in every state, the handle a request grants has the inode number of the file asked for; it resolves to a path of that file if and only if it is not an older mapping, found by LOOKUP, that names something else |
| `FileHandlesProof.AttributesOfTheHandleExactly` | src/nfs/server/procedures/nfsproc_getattr.c:38-115 | in every state, GETATTR changes nothing and gives attributes exactly when the handle resolves to a path that names something and nothing is refused; they are the node at that path, and of a file of that inode number if and only if the mapping names its file |
| `FileHandlesProof.AttributesInRuns` | src/nfs/server/procedures/nfsproc_getattr.c:38-115 | after a run without unsafe removals, every handle that resolves gets attributes of a file of its inode number |
| `FileHandlesProof.OldHandleNewFile` | src/nfs/server/procedures/nfsproc_getattr.c:38-115 | a file looked up under one spelling, removed under another and created again: the old handle gets the new file's attributes |
| `FileHandlesProof.OldHandleRun` | src/nfs/server/procedures/nfsproc_getattr.c:38-115 | such a run from an empty cache |
| `FileHandlesProof.LinkAddsAName` | src/nfs/server/procedures/nfsproc_link.c:84-306 | in every state, a LINK that succeeds adds a second name for the file the handle's path leads to, which has the handle's inode number if and only if the mapping names its file, and leaves the cache alone |
| `FileHandlesProof.HandlesResolve` | src/nfs/server/inode_cache.c:176-187 | at the end of every run that forgets nothing, every handle ever given out resolves; if no removal was unsafe, to a path of its inode number |
| `FileHandlesProof.HarmlessRunsForgetNothing` | src/nfs/server/procedures/nfsproc_create.c:364-399 | runs of MNT, GETATTR, CREATE and LINK forget nothing and have no unsafe removal |
| `FileHandlesProof.HandlesKeepTheirFiles` | src/nfs/server/procedures/nfsproc_link.c:306 | in every run of MNT, GETATTR, CREATE and LINK, every handle ever given out resolves at the end to a path of its inode number, and the path it was given out for names what it did; where an inode number is of one file, both are that file |
| `FileHandlesLaws.OpenDirectoryExactly` | src/nfs/server/procedures/nfsproc_create.c:91-152 | a directory handle stands for the path its own inode number resolves to and no other, exactly if that is a directory and stat works; and which refusal it gets otherwise |
| `FileHandlesLaws.CreateExactly` | src/nfs/server/procedures/nfsproc_create.c:91-399 | CREATE succeeds exactly when nothing is in the way; it then makes a regular file at the name under the handle's own path, and its handle is mapped to that path; if a step after open fails only the file stays |
| `FileHandlesLaws.CreateRefusals` | src/nfs/server/procedures/nfsproc_create.c:91-330 | which refusal a CREATE gets, check by check and error by error |
| `FileHandlesLaws.LinkExactly` | src/nfs/server/procedures/nfsproc_link.c:81-385 | LINK succeeds exactly when nothing is in the way; it then makes the name under the directory handle's own path, for the file at the target handle's own path |
| `FileHandlesLaws.LinkRefusals` | src/nfs/server/procedures/nfsproc_link.c:81-385 | which refusal a LINK gets |
| `FileHandlesLaws.LookupExactly` | src/nfs/server/procedures/nfsproc_lookup.c:61-258 | LOOKUP succeeds exactly when the name is there and nothing is in the way, with the older handle of a file that is mapped and a new one of another; and what it does to the cache |
| `FileHandlesLaws.LookupRefusals` | src/nfs/server/procedures/nfsproc_lookup.c:61-258 | which refusal a LOOKUP gets |
| `FileHandlesLaws.RemoveExactly` | src/nfs/server/procedures/nfsproc_remove.c:61-311 | REMOVE succeeds exactly when the name is there, is no directory and nothing is in the way; it then takes that name away, and the first mapping to that very path |
| `FileHandlesLaws.RemoveRefusals` | src/nfs/server/procedures/nfsproc_remove.c:61-311 | which refusal a REMOVE gets |
| `FileHandlesLaws.MntExactly` | src/nfs/server/procedures/mntproc_mnt.c:77-252 | MNT grants a new handle for the path asked for exactly if it is an exported directory that may be mounted; and which refusal it gives otherwise |
| `FileHandlesLaws.GetAttrExactly` | src/nfs/server/procedures/nfsproc_getattr.c:38-125 | GETATTR answers with all that the file system has at the handle's own path, inode number and kind; and which refusal it gives otherwise |
| `FileHandlesLaws.MountedIsADirectory` | src/nfs/server/procedures/mntproc_mnt.c:77-252 | GETATTR on a handle that MNT gave out says it is a directory, the one mounted |
| `FileHandlesLaws.CreatedIsAFile` | src/nfs/server/procedures/nfsproc_create.c:364-399 | GETATTR on a handle that CREATE gave out says it is a regular file |
| `FileHandlesLaws.CreatedIsFound` | src/nfs/server/procedures/nfsproc_create.c:364-399 | LOOKUP of the name gives the handle that CREATE gave |
| `FileHandles.NfsServer.CreateHandle` | src/nfs/server/file_management.c:32-58 | a mapping at the head for the handle returned, or no change |
| `FileHandles.NfsServer.FindDirectory` | src/nfs/server/procedures/nfsproc_create.c:91-152 | the handle's own path, or the reply for an unknown handle, a failed stat, or a file that is no directory (`FileHandlesLaws.OpenDirectoryExactly`) |
| `FileHandles.NfsServer.FindNewPath` | src/nfs/server/procedures/nfsproc_create.c:91-250 | the path to be made, or the reply of the first check that fails |
| `FileHandles.NfsServer.FindOldPath` | src/nfs/server/procedures/nfsproc_remove.c:64-160 | the path that is there, or the reply of the first check that fails |
| `FileHandles.NfsServer.LookAgain` | src/nfs/server/procedures/nfsproc_create.c:380-399 | if the last look at the file fails, the first mapping of its inode number is dropped |
| `FileHandles.NfsServer.ServeMnt` | src/nfs/server/procedures/mntproc_mnt.c:77-252 | the checks in their order, then the handle; state and reply of the specification (`FileHandlesLaws.MntExactly`) |
| `FileHandles.NfsServer.ServeGetAttr` | src/nfs/server/procedures/nfsproc_getattr.c:38-125 | reply of the specification, which is the whole node at the handle's own path (`FileHandlesLaws.GetAttrExactly`), and no change |
| `FileHandles.NfsServer.ServeLookup` | src/nfs/server/procedures/nfsproc_lookup.c:61-258 | state and reply of the specification (`FileHandlesLaws.LookupExactly`) |
| `FileHandles.NfsServer.ServeCreate` | src/nfs/server/procedures/nfsproc_create.c:91-399 | state and reply of the specification; the file stays when a later step fails (`FileHandlesLaws.CreateExactly`) |
| `FileHandles.NfsServer.ServeLink` | src/nfs/server/procedures/nfsproc_link.c:81-385 | state and reply of the specification (`FileHandlesLaws.LinkExactly`) |
| `FileHandles.NfsServer.ServeRemove` | src/nfs/server/procedures/nfsproc_remove.c:61-311 | state and reply of the specification (`FileHandlesLaws.RemoveExactly`) |

## Left out

- Protocol buffers: packing and unpacking are taken to be inverse to each other, packed calls and replies are not empty, and a packed directory entry has a positive size.
- TQUIC, libev, sockets, TLS, timers, signals, connection set-up and tear-down: a stream or connection is a reliable ordered sequence of bytes that is cut into reads in any way.
- Transport failures in the two protocols: the loops that see them are in `TransferLoop` and `ReceivingContext`, with their error codes.
- Liveness of wake-ups: `finished` is set without the lock its waiter holds, and a failed allocation returns with the context's lock held; `QuicProgress` and `TcpProgress` say what can happen, not that it does.
- `TcpSocket.RecordIsParsed`: one direction when calls fail; without failures it is exact (`TcpSocket.RecordExactly`), and with them the exact condition is stated for each buffer (`TcpSocket.FilledExactly`), since bytes that a failed recv shifts may by chance still spell the same record.
- Failure of malloc, and freeing, except for resizing to no bytes and the count of open directory streams.
- Calls on the main stream: all calls use auxiliary streams, as the file system's do.
- Creation of a stream with the id of one that exists: QUIC never hands out an id twice.
- `QuicRpcProof.QuicRepliesAnswerOwnCalls`: speaks of calls and replies as bytes; what the procedures answer is any reply, or none.
- `ReadDir.SessionsRefineStatelessPager`: a directory does not change while it is read, a cookie is a position in it, and an inode number is of one directory; sessions of directories with equal numbers on two devices are not told apart.
- `ChunkedIo.BlockingWrite`: a failing call is taken not to have written, and the file not to be changed by others.
- The way a path is resolved: `canon` and `via` are any functions from spellings to files and to the links on the way, and do not change during a run. Links are taken away by REMOVE but not made, and directories are neither made nor taken away, by the requests modelled.
- `FileHandlesProof.HandlesResolve`: a file is its inode number, as the code has it; after a REMOVE the number of a file that is gone may be given to a new one, and an old handle then resolves to that. Files of equal inode number on two devices are not told apart.
- RENAME, RMDIR, MKDIR, SYMLINK, SETATTR, READLINK, STATFS: the same checks and cache operations again.
- The mount list, the parsing of the exports file and the permission checks: the last two are decided by the environment of a request.
- Message validation and authentication of calls: they are part of what the server answers.
- The client's tree of visited directories, soft-link resolution and the remaining REPL and FUSE handlers; `cat` and `echo` repeat the chunk loops.
- Bookkeeping of server threads.
