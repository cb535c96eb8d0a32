# corRest, modelled and proved in Dafny

A model of the parts of corRest where state, interleaving and byte arithmetic meet, and
proofs about it: the multiplexed cor:// protocol, HTTP response framing, the sharded worker
pool, streamed responses, the client's multi-request engine and its pool of idle
connections, route lookup, the URL value codec with the query parser, and Accept
negotiation. `dafny verify dfyconfig.toml` checks all of it.

Code that changes things step by step is modelled imperatively - classes over arrays, lists
linked through their nodes, loops with invariants - and each such method is proved against
a function or an abstract state; what the code promises is then proved about those.
Where threads or coroutines interleave, the model is a transition system whose steps are
the code between two yield points, two locks or two atomic operations, and the theorems are
about every run.

## How it is laid out

| file | what it models |
|---|---|
| `Base.dfy`, `CStrings.dfy` | bytes, options, first indices; C strings in a buffer |
| `CorFrame.dfy` | the 16-byte frame header, the byte stream, and the cut of a stream into frames |
| `CorServerConn.dfy` | a server connection on its event loop: the socket, frame assembly, the HELLO, requests, the response queue |
| `CorConn.dfy` | a connection read and written in turns - the client's, and the server's with a thread of its own; the two ends together |
| `CorCodec.dfy`, `CorChannel.dfy` | a stateful codec with its round-trip law, an instance; one direction of a connection, its tables |
| `CorMux.dfy` | client coroutines, wire and server as one transition system |
| `CorMuxTurns.dfy`, `CorMuxMatch.dfy`, `CorMuxTheorems.dfy` | the invariants of the turns, of matching and of the tables; the theorems |
| `CorMuxDelivery.dfy` | a response that is read reaches its call; when a call fails; a call from its start to its end |
| `CorMuxConn.dfy`, `CorMuxRefines.dfy` | the client connection's linked lists of calls and writers; that they, and the wait for a response, do what the transition system says |
| `CorConnRefs.dfy` | the references of a server connection, and the memory of its requests |
| `HttpScan.dfy`, `HttpChunks.dfy`, `HttpResponse.dfy` | what a response's bytes say to the completeness check and to the parser, and their agreement |
| `HttpWriter.dfy` | responses as a server writes them, and what both readers find in them |
| `HttpFinal.dfy` | when "complete" is final, whatever bytes follow |
| `HttpMarks.dfy`, `HttpCutShort.dfy` | what the parser leaves in the buffer, and what a second parse of that finds; responses that show it |
| `HttpParser.dfy` | the check's loops |
| `HttpDechunk.dfy`, `HttpParseInPlace.dfy` | the dechunker and the parser at work in the buffer |
| `Workers.dfy`, `WorkQueue.dfy` | the worker pool as steps of its threads; a shard's linked queue |
| `Stream.dfy` | a streamed response between its writers and the server |
| `MultiEntry.dfy`, `ClientMulti.dfy` | what happens to one request of many, and its runs; the multi-request engine |
| `MultiFetch.dfy` | that a request sent and a response read, in any pieces, end with that response |
| `ClientPool.dfy` | the idle connections |
| `Routes.dfy`, `RouteAnswers.dfy`, `RoutesBuild.dfy` | prepared routes and their lookup; 400, 404 and 405; the tables of a listener |
| `UrlCodec.dfy`, `UriParams.dfy` | percent-coding; the query split in place |
| `Accept.dfy` | Accept negotiation |

What comes from outside is a parameter or a free choice: how many bytes a read or a write
moves and when it would block, the clock, the order of events and of the server's answers,
whether a HELLO or a request is refused and what a request is answered with,
what a connect or a look at a socket says, `strtod`, and the tree codec, of which only the
law "what was encoded with a table is decoded with an equal one, and both tables grow
alike" is used (`CorCodec` proves it of an instance that interns names).

## Where the code differs from what it is said to do

* A response that is cut off is accepted, empty, from the multi-request engine when the peer
  closes: the engine parses what it has once more, and the first parse has written NULs over
  the colons, so no header is found again and the connection looks open and goes to the pool
  (`ClientMulti.CutShortIsAccepted`; `HttpCutShort.HeadOnlyIsWhole`, cut off in its headers).
  With lines that end in CR LF the close is told only when the bytes stop inside a line or
  there is no status line (`ClientMulti.ClosedIsTold`, `HttpCutShort.LinesWholeMeans`).
* Of lines that end in LF alone the first parse overwrites the end as well. A last header line
  then swallows the empty line, the second parse reads the body for headers, and one that
  says "chunked" in front of a negative size makes it hand `memmove` a negative length, which
  C does not define (`ClientMulti.RunsIntoUndefined`; `HttpMarks.UndefinedExactly` for which
  bytes). The first parse never gets there (`HttpResponse.UndefinedIsMalformed`), nor does a
  second of lines that end in CR LF (`HttpMarks.SecondParse`).
* A response read up to the end of any of its header lines can be found complete, the
  status line alone for one (`HttpFinal.StatusLineAlone`). What is found complete is
  complete whatever follows exactly when the empty line is there
  (`HttpFinal.CompleteIsFinal`).
* The pool's cap is called "per host"; it is the bucket's. With a cap of one, a connection to
  a host that has none idle is closed for another host's (`ClientPool.OtherHostKeepsOut`).
  The two caps are the same, for every cap, exactly when no other host is in the bucket
  (`ClientPool.CapIsPerHostWhen`).
* A look for an idle connection reads the clock before it takes the lock, and the
  difference of two times is unsigned: a connection put back in between is closed as
  expired (`ClientPool.PutAfterTheClock`). Expired means idle for too long exactly when the
  clock was read after the connection was put back (`ClientPool.ExpiredExactly`).
* A pooled TLS connection found dead is freed without its TLS session being closed
  (`ClientPool.DeadTlsLeaks`), exactly when the first match left after eviction is one
  (`ClientPool.CorRestClientPool.Get`).
* The completeness check reads a Content-Length by its leading digits, the parser by
  `atoi`; `+5` is 0 to one and 5 to the other (`HttpResponse.SignedLengthDisagrees`).
  `HttpScan.AtoiAgrees` says for which texts they are the same, and
  `HttpResponse.CompleteParsesExactly` for which responses it matters.
* A query name is not encoded in its `=`: joining and parsing gives the same pairs back
  exactly when no name has one (`UriParams.QueryRoundTrip`).

## Model

| member | source | states |
|---|---|---|
| CorFrame.WordRoundTrip | corRestCor.c:268-303 | a 32-bit length or correlation comes out of the header as it went in |
| CorFrame.FrameRoundTrip | corRestCor.c:682-784 | the bytes of a frame within the size limit are one whole frame, and it is that frame |
| CorFrame.FrameLayout | corRestCor.c:283-299 | a frame byte by byte: magic, kind, three zeros, correlation and length with the lowest byte first, body |
| CorFrame.WholeMeans | corRestCor.c:706-725 | which bytes are one whole frame, and its kind, correlation and body, byte by byte; sixty-four megabytes of body at most |
| CorFrame.CutWireExactly | corRestCor.c:632-672 | a stream of encoded frames is cut back into exactly those frames if and only if each is within the receiver's limit |
| CorFrame.CutPrefix | corRestCor.c:682-784 | the frames cut out of a prefix of a stream are a prefix of the stream's frames |
| CorServerConn.CutConcat | corRestCor.c:682-784 | frames taken one by one, whatever follows, are the frames the reference cut gives, in order |
| CorServerConn.ServerConn.FillHeader | corRestCor.c:693-704 | buffered bytes move into the header without one lost, added or reordered |
| CorServerConn.ServerConn.FillBody | corRestCor.c:727-736 | the same for the body, up to its length |
| CorServerConn.ServerConn.ReadIntoBody | corRestCor.c:747-757 | a read straight into a large body appends exactly what was read to what there is |
| CorServerConn.ServerConn.ReadIntoBuffer | corRestCor.c:758-767 | a read into the emptied buffer keeps the stream's order |
| CorServerConn.ServerConn.OpenBody | corRestCor.c:706-725 | a header is accepted exactly when its magic and its length are good; then correlation and length are the header's |
| CorServerConn.ServerConn.FrameAssemble | corRestCor.c:682-784 | under any segmentation the unread bytes stay the same; whole means one frame is in, not whole and alive means no frame is, dead means the peer is gone or its bytes are no frame |
| CorServerConn.ServerConn.FrameTake | corRestCor.c:792-805 | the frame taken is the next of the stream, its correlation and body the frame's, the rest kept for the next |
| CorServerConn.ServerConn.HelloAnswer | corRestCor.c:1229-1258 | accepted exactly when it is a HELLO and not refused: then the one HELLO_ACK, with its correlation, is queued and the frame taken, and it fails exactly when there is no answer, the tables do not open or the answer is not sent whole; else nothing is queued or taken |
| CorServerConn.WriteAll | corRestCor.c:163-190 | ok exactly when all the bytes went; else the first of them, because the socket failed or a wait ended; nothing on a socket that had failed |
| CorServerConn.ServerConn.StartRequest | corRestCor.c:1100-1221 | what a request does to the connection: refused, answered at once with a response under its own correlation, left to a coroutine, or, when it may block and nothing else is in flight or queued, moved to a thread; nothing else is queued |
| CorServerConn.ServerConn.OnRequest | corRestCor.c:1284-1291 | the next frame is taken, and what is queued is its answer: a response with that frame's correlation, or nothing; the connection dies only of its socket or of a request that cannot be started |
| CorServerConn.AnswersAre | corRestCor.c:886-935 | of any requests and what became of them: the responses queued at once are each to a request of its own, in the requests' order and with its correlation and reply, and a request without one was refused, waits, or made no response |
| CorServerConn.ServerConn.ConnInput | corRestCor.c:1267-1301 | every byte received is in a frame taken or still unread, in order; queued are the HELLO_ACK and behind it the answers to the requests taken, as AnswersAre says, but for one that moved the connection to a thread; on return no whole frame is left in the buffers of a connection still the loop's, and a frame was taken or the socket had no more; it dies of a cause that is named, and lives only with its HELLO accepted and every request started |
| CorServerConn.ServerConn.Session | corRestCor.c:1267-1301 | for every split of the bytes: the frames taken are the first of the cut of all the bytes, and all of them while the connection lives on the loop; queued are the HELLO_ACK and the answers to the requests among them; it dies only of its socket, of bytes that are no frame, of a HELLO or of a request |
| CorServerConn.ServerConn.OutFlush | corRestCor.c:590-622 | for every partial-send schedule, sent and unsent together are what was queued; unsent bytes are left only when the socket took no more, with EPOLLOUT watched, or the connection is dead because the socket failed |
| CorServerConn.ServerConn.FrameQueue | corRestCor.c:632-672 | a frame queued goes behind all there are and is flushed as far as the socket takes it, unless a flush is waiting; a dead connection or a failed encoding queues nothing |
| CorServerConn.TakenArePrefixOfQueued | corRestCor.c:590-805 | the frames cut out of what arrived are in order a prefix of the frames queued, however large; once all bytes arrived they are all of them if and only if each is within the limit |
| CorConn.CorConn.ReadPart | corRestCor.c:207-250 | from the buffer, or one read into it or straight to its place: the bytes taken and those unread are the ones there were |
| CorConn.CorConn.ConnRead | corRestCor.c:203-258 | under any reads, exactly the next n bytes of the stream; it fails only when the peer is gone, a timed wait ended, or an untimed read of a non-blocking socket found nothing |
| CorConn.CorConn.FrameRecv | corRestCor.c:311-358 | the next frame of the stream, its kind, correlation and body, and the rest kept; or none - the header is no good, memory is missing, or a read failed - and the connection is not read again |
| CorConn.CorConn.FrameSend | corRestCor.c:268-301 | the frame behind all there are; written in part only on a socket that failed or stayed full |
| CorConn.CorConn.Serve | corRestCor.c:1026-1060 | first the response to the request that moved the connection, then, for all the frames the thread takes, a response to each request, in order and with its correlation, as AnswersAre says; it ends only when the peer is gone, at bytes that are no frame, without memory, at a frame that is no request, or at a request that cannot be started |
| CorConn.SessionAndThread | corRestCor.c:1018-1088 | across the move to a thread nothing that arrived is lost, taken twice or out of order; what is queued is the session's answers, the response to the last request before the move, and the thread's answers, each request answered once and in its turn |
| CorConn.ClientTakesWhatServerQueued | corRestCor.c:203-358 | of a server and a client object: the frames the client took are a prefix of those the server queued; all, once all arrived, if and only if none is too large |
| CorConn.ServerTakesWhatClientSent | corRestCor.c:268-301 | and those the server took of those the client sent |
| CorConn.Responses | corRestCor.c:590-672 | for every schedule of queueing, flushing, delivering and reading: queued are the frames the schedule says, in order, while the connection lives; the client's frames are a prefix of them, one for every read that did not fail |
| CorConn.Requests | corRestCor.c:1267-1301 | for every schedule of sending, delivering and input events: sent are the frames the schedule says, in order, up to one that fails; the server's frames are a prefix of them, and what it queued is their answers |
| CorCodec.TreeRoundTrip | corRestCor.c:632-672 | of the interning instance: a tree encoded with a table decodes to itself with an equal table |
| CorCodec.InterningRoundTrips | corRestCor.c:632-672 | the instance satisfies the law the protocol's theorems assume |
| CorChannel.EnqueueInStep | corRestCor.c:632-672 | encoding a frame onto the queue keeps both ends' tables in step |
| CorChannel.SendNowInStep | corRestCor.c:268-303 | so does writing one directly, when nothing is queued |
| CorChannel.ReceiveInStep | corRestCor.c:2145-2165 | the next frame decodes to the next tree that was encoded, and the tables stay in step |
| CorMuxTurns.NextKeepsTurns | corRestCor.c:1785-1837 | every step of any coroutine or of the server keeps the invariants of the two turns |
| CorMuxTurns.WriteTurnHeldByOne | corRestCor.c:1785-1819 | in every run at most one coroutine holds the write turn, connecting included, and waiting writers have a holder or a woken writer before them |
| CorMuxTurns.NoCallIsStranded | corRestCor.c:2229-2327 | in every run at most one coroutine reads, and while a call is parked somebody reads or a parked call has been woken |
| CorMuxMatch.NextKeepsMatch | corRestCor.c:2119-2178 | every step keeps the matching of correlations, requests, responses, tables and written bytes |
| CorMuxTheorems.ReplyIsItsOwn | corRestCor.c:2119-2178 | in every run a call that ends without error holds the response the server built for that call's own correlation and request, and the correlation is nobody else's |
| CorMuxTheorems.InFlightAreDistinct | corRestCor.c:2068-2076 | in-flight correlations are pairwise distinct |
| CorMuxTheorems.TablesStayInStep | corRestCor.c:2145-2165 | in both directions the receiver's table after k frames is the sender's after k, and the trees are the ones encoded - late responses and the move to a dedicated thread included |
| CorMux.SharedNamespaces | corRestCor.c:366-376 | both ends preload as many namespaces as the smaller number of the two |
| CorMuxTheorems.PastTheQueueIsOutOfStep | corRestCor.c:1209-1213 | a response written past a queued one is in its place on the wire: why only a connection with nothing queued moves |
| CorMuxTheorems.PastTheQueueIsNotDecoded | corRestCor.c:1209-1213 | with a codec that interns names such a response cannot be decoded and the tables differ; behind the queued one it can |
| CorMuxTheorems.OnlyWholeFrames | corRestCor.c:1785-1819 | the bytes written are whole frames and at most the beginning of one more, and cut into exactly the frames written |
| CorMuxTheorems.WaitedForIsOnItsWay | corRestCor.c:1100-1221 | a call still waited for has its request on the way or with the server, or its response on the way back |
| CorMuxTheorems.NextIsFinal | corRestCor.c:1753-1777 | no step changes an outcome that is there |
| CorMuxTheorems.CompletesOnce | corRestCor.c:1753-1763 | whatever follows, a call that has completed does not complete again |
| CorMuxTheorems.SomebodyReads | corRestCor.c:2229-2327 | with a call waiting and nobody reading, coroutines already woken lead to a reader without any new event or deadline |
| CorMuxDelivery.ReaderDelivers | corRestCor.c:2119-2178 | in every state a run can reach: a frame read for a call still on the list gives that call the response the server built, takes it off the list, and leaves every other call's outcome as it was |
| CorMuxDelivery.LateIsDropped | corRestCor.c:2165-2172 | a frame for no call on the list changes no outcome |
| CorMuxDelivery.HeldForGood | corRestCor.c:1753-1763 | in every run, whatever follows: a call whose response was read while it was on the list holds that response |
| CorMuxDelivery.ReadIsSettled | corRestCor.c:2119-2178 | in every run: a response that was read has its call, and that call is no longer waited for: it holds this response, or had ended before |
| CorMuxDelivery.FailsOnlyWhen | corRestCor.c:2229-2327 | a step makes a call fail only when its own time is up, its connect failed, it found the connection failed, or the connection fails in this step |
| CorMuxDelivery.FailsThen | corRestCor.c:2229-2327 | and then it does fail, or has its response read in the same step |
| CorMuxDelivery.BadFrameFailsAll | corRestCor.c:2119-2165 | a frame too large or not decodable fails every call on the list and breaks the connection |
| CorMuxDelivery.SomebodyGoesOn | corRestCor.c:1785-1837 | as long as a call is not finished, its own coroutine has a step, or, while it queues for the write turn, the one that has the turn or was woken for it |
| CorMuxDelivery.CallCompletes | corRestCor.c:2335-2371 | a run from the start: whatever the codec, request and reply, within the frame limit, the call connects, is written, taken, answered and read, and ends with that reply |
| CorMuxConn.MuxConn.Link | corRestCor.c:2066-2076 | a new call goes in front of the list |
| CorMuxConn.MuxConn.CallUnlink | corRestCor.c:1732-1745 | the list without that call, everything else where it was; a call not on it changes nothing |
| CorMuxConn.MuxConn.CallDone | corRestCor.c:1753-1763 | the call is off the list, done with this result, and woken if its coroutine waits |
| CorMuxConn.MuxConn.MuxFail | corRestCor.c:1771-1777 | every call on the list is done and failed, those that wait are woken, the list is empty and the connection closed |
| CorMuxConn.MuxConn.FindCall | corRestCor.c:2140-2143 | the first call with the response's correlation, or none |
| CorMuxConn.MuxConn.ReadTurnHandOff | corRestCor.c:1827-1837 | exactly the first call that waits is woken |
| CorMuxConn.MuxConn.Queue | corRestCor.c:1785-1806 | a waiting writer goes to the end of the queue |
| CorMuxConn.MuxConn.WriteTurnRelease | corRestCor.c:1808-1819 | the turn is free and exactly the first waiting writer is woken and taken off |
| CorMuxRefines.CallDoneRefines | corRestCor.c:1753-1763 | on lists and objects that represent a state of the transition system, callDone gives ones that represent its CallDone |
| CorMuxRefines.MuxFailRefines | corRestCor.c:1771-1777 | likewise muxFail and MuxFail, for every call ever sent |
| CorMuxRefines.FindCallRefines | corRestCor.c:2140-2143 | the call found in memory is the one the transition system finds |
| CorMuxRefines.HandOffRefines | corRestCor.c:1827-1837 | likewise readTurnHandOff and HandOff: the same call is woken |
| CorMuxRefines.ParkRefines | corRestCor.c:1785-1806 | likewise a writer that waits and Park |
| CorMuxRefines.ReleaseRefines | corRestCor.c:1808-1819 | likewise writeTurnRelease and ReleaseWrite |
| CorMuxRefines.SendRefines | corRestCor.c:2068-2076 | linking a new call with the write turn had is BeginSend, with one object more |
| CorMuxRefines.ReadFrameRefines | corRestCor.c:2119-2178 | readFrame, whatever the frame: the same call done, none, or all failed |
| CorMuxRefines.LoopTopRefines | corRestCor.c:2237-2307 | the head of the wait and its end: the same of returning, parking and taking the read turn |
| CorMuxRefines.WaiterRefines | corRestCor.c:2237-2255 | a caller that begins to wait, or a parked one woken, is the step of the transition system |
| CorMuxRefines.ReaderRefines | corRestCor.c:2257-2300 | the reader back from the socket is the step too: frame read, turn let go of, loop again |
| CorMuxRefines.NoWaitRefines | corRestCor.c:2275-2280 | and so is the reader that gets no wait: every call failed, the turn let go of |
| CorConnRefs.StepKeeps | corRestCor.c:545-582 | every atomic operation keeps: the count is the holders, the socket is open exactly while loop or thread have it, every request block is in one place |
| CorConnRefs.NoUseAfterFree | corRestCor.c:832-848 | every step is taken by one that still holds the connection |
| CorConnRefs.EveryRun | corRestCor.c:1309-1350 | in every interleaving: freed once, when the last holder lets go; socket closed once, and by then; every request's block freed by then |
| CorConnRefs.DoneWithEnds | corRestCor.c:545-563 | once loop or thread are done with a connection, every further step brings its freeing nearer |
| CorConnRefs.DoneWithGetsOn | corRestCor.c:545-563 | and until it is freed there is such a step |
| HttpScan.LinesAgree | corRestClientParse.c:56-98 | a NUL-free header line is read the same by the check and by the parser if and only if it is no Content-Length, or one whose text starts with a digit, or holds no number but zero behind white space and a sign |
| HttpScan.HeadersAgree | corRestClientParse.c:485-499 | a plain header block gives both the same body extent, length, chunking and keep-alive |
| HttpScan.AtoiAgrees | corRestClientParse.c:71-76 | of any text, the leading digits are what atoi gives if and only if it starts with a digit or has no number but zero behind white space and a sign |
| HttpScan.BlocksAgree | corRestClientParse.c:485-499 | whatever its lengths say, a NUL-free block gives both the same body, chunking and keep-alive |
| HttpChunks.CompleteMeansWhole | corRestClientParse.c:106-158 | whenever the check says the chunked body is complete, the dechunker succeeds with the length the check counted |
| HttpChunks.NeedMoreMeansNotWhole | corRestClientParse.c:106-158 | whenever the check wants more, the dechunker finds no whole body |
| HttpChunks.DechunkUndoesEncode | corRestClientParse.c:349-390 | for all non-empty chunks, their sizes written in base 16 with any zeros in front and letters of either case, any extensions and trailing bytes: dechunking gives their data, joined |
| HttpChunks.SizeReadsBack | corRestClientParse.c:118-134 | a number written in base 16 by division, zeros in front, letters of either case, is what both readings of a size line give |
| HttpChunks.CheckCountsEncoded | corRestClientParse.c:106-158 | of the same chunks, extensions behind a semicolon: complete, and as many bytes as their data |
| HttpChunks.CutEncodingNeedsMore | corRestClientParse.c:106-158 | cut anywhere before its end, more is asked for |
| HttpChunks.BareEnds | corRestClientParse.c:146-154 | a size line and data that end in LF alone are read the same, when anything follows |
| HttpChunks.NoEnd | corRestClientParse.c:381-385 | data with something else behind it: more is asked for by the check, and malformed to the dechunker |
| HttpResponse.CompleteParses | corRestClientParse.c:166-232 | "complete" is never "incomplete" to the parser: with a status line the response is there, framed the same and of the measured length |
| HttpResponse.CompleteParsesExactly | corRestClientParse.c:166-232 | for any lengths, in a NUL-free block: complete is incomplete to the parser if and only if it is not chunked and the parser's length is more than there is after the headers |
| HttpResponse.IncompleteParses | corRestClientParse.c:455-547 | "more to come" parses only as a body that the end of the connection ends |
| HttpResponse.UndefinedIsMalformed | corRestClientParse.c:349-390 | whatever the bytes, a chunk size that C leaves open is malformed to the check: what is complete or unfinished to it is parsed as C defines |
| HttpResponse.SignedLengthDisagrees | corRestClientParse.c:71-76 | a length with a plus sign is complete to the check and short to the parser |
| HttpWriter.CodeReadsBack | corRestClientParse.c:241-254 | three decimal digits behind a word and a blank, whatever follows, are the status code they say |
| HttpWriter.NumberReadsBack | corRestClientParse.c:71-76 | a number written in base 10, zeros in front, up to the first character that is no digit |
| HttpWriter.AtoiReadsBack | corRestClientParse.c:323-326 | the same to atoi, behind white space and a sign |
| HttpWriter.StrtolReadsBack | corRestClientParse.c:362-364 | and in base 16 to strtol, behind white space, a sign and "0x" |
| HttpWriter.FieldIsRead | corRestClientParse.c:56-98 | a header line, its name and words in any case, is read by both as what it says: a length, chunks, close, keep-alive, or nothing |
| HttpWriter.NoColon | corRestClientParse.c:58-62 | a line without a colon says nothing |
| HttpWriter.WrittenIsPlain | corRestClientParse.c:485-499 | header blocks so written meet the conditions under which the two readers agree |
| HttpWriter.SizedIsRead | corRestClientParse.c:166-232 | a response written with a length: complete with so many bytes behind the headers, and they are its body; unfinished to the check and incomplete to the parser with fewer |
| HttpWriter.UnsizedIsRead | corRestClientParse.c:202-232 | a response that says nothing of its length: with 204, 304 and 1xx complete without a body whatever is said of the connection, without a body on one that is kept, and all that comes on one that is closed |
| HttpWriter.ChunkedIsRead | corRestClientParse.c:502-513 | a response written in chunks: complete, and its body their joined data, whatever length is said as well |
| HttpWriter.CutChunksAreUnfinished | corRestClientParse.c:106-158 | and unfinished when it is cut anywhere in the chunks |
| HttpWriter.FieldsReadBack | corRestClientParse.c:303-341 | the names and values handed out are the ones written, in order |
| HttpWriter.TextReadsBack | corRestClientParse.c:254-265 | and so is the status line's text |
| HttpFinal.CompleteStays | corRestClientParse.c:166-232 | with the empty line there, complete is complete whatever bytes come after |
| HttpFinal.ResponseStays | corRestClientParse.c:455-547 | and parses to the same response |
| HttpFinal.CompleteIsFinal | corRestClientMulti.c:970-1013 | what is found complete is so for every continuation if and only if its header block has ended |
| HttpFinal.StatusLineAlone | corRestClientParse.c:182-232 | a status line without more is complete and parses, and with a length behind it is not complete any more |
| HttpMarks.SecondParse | corRestClientMulti.c:926-945 | lines ended by CR LF: a second parse is defined, and finds a response, then without a body and kept alive, if and only if the status line is one and the bytes do not stop inside a header line |
| HttpMarks.SecondParseExactly | corRestClientMulti.c:926-945 | of any bytes: what a second parse of the buffer a first one left comes to, where the end of the headers is kept, cut off, or swallowed and the body read for headers |
| HttpMarks.UndefinedExactly | corRestClientParse.c:364-377 | a second parse leaves what C defines if and only if the empty line was swallowed and the body, read for headers, is chunked with a negative size |
| HttpCutShort.LinesWholeMeans | corRestClientParse.c:481-499 | the bytes stop inside no line if and only if the empty line is there or they end in LF |
| HttpCutShort.HeadOnlyIsWhole | corRestClientMulti.c:926-945 | a status line and one header, no empty line: incomplete, and then a whole response |
| HttpCutShort.SecondIsNotDefined | corRestClientParse.c:364-377 | lines ended by LF alone, a body that looks like headers: unfinished to the check, incomplete to the first parse, undefined in the second |
| HttpCutShort.CutShortIsWhole | corRestClientMulti.c:926-945 | two of five announced bytes: incomplete, and then a whole response without a body |
| HttpParser.FindLineEnd | corRestClientParse.c:28-47 | finds the first LF and the CR before it |
| HttpParser.ScanHeaderValue | corRestClientParse.c:56-98 | computes what the line says to the check |
| HttpParser.ChunkedComplete | corRestClientParse.c:106-158 | computes the check's answer for a chunked body, and its length |
| HttpParser.ResponseComplete | corRestClientParse.c:166-232 | computes the check's answer |
| HttpDechunk.StrtolStopsAtNul | corRestClientParse.c:362-364 | the NUL at a size line's end leaves strtol the number the line starts with |
| HttpDechunk.MoveTurns | corRestClientParse.c:377-379 | the move down, overlapping or not, ends before the data does: what follows is still unread where it was |
| HttpDechunk.DechunkOnce | corRestClientParse.c:356-387 | one chunk: its data moved to the front, the bytes after it untouched, or the right answer |
| HttpDechunk.DechunkInPlace | corRestClientParse.c:349-390 | the joined data is at the front of the same bytes and its length returned; nothing outside them changes; every error is the reference's |
| HttpParseInPlace.ParseResponseHeader | corRestClientParse.c:303-341 | name and value are C strings at the offsets handed out, what the line says is computed, and exactly the colon and the line's end are overwritten |
| HttpParseInPlace.ParseBlock | corRestClientParse.c:481-499 | where the body starts, what the headers say, and every header's strings, in order; the block is left marked, line by line |
| HttpParseInPlace.ParseStatusLine | corRestClientParse.c:240-267 | the code, and the text as a C string when there is one |
| HttpParseInPlace.TakeBody | corRestClientParse.c:502-544 | the body's place and length, for chunked, fixed-length, bodiless and to-the-end responses |
| HttpParseInPlace.Detach | corRestClientParse.c:416-444 | a copy with every byte where it was, the body ended by a NUL |
| HttpParseInPlace.ParseResponse | corRestClientParse.c:455-547 | answers as the reference does; then code, status text, all headers and the body are on the response's own copy; keep-alive is set exactly when the headers ended, and the buffer is left as Left says, whatever the answer |
| Workers.StepKeeps | corRestInit.c:1056-1133 | every step of the pool's threads keeps the invariants |
| Workers.EveryRun | corRestInit.c:1056-1133 | in every run: first in first out, each once; no request waits while all its shard's live workers sleep; a shard without workers is drained of all that came before the last went; a visited shard has nobody asleep |
| Workers.ExitMeans | corRestInit.c:1078-1086 | a worker exits on an empty queue with the flag cleared only |
| Workers.FirstIsTaken | corRestInit.c:1088-1092 | what a worker takes is the first of its queue, it is that which it runs, and no other shard changes |
| Workers.HeadIsRun | corRestInit.c:1072-1100 | a request at the head of a queue is run by a worker that is awake, in two steps at most of that worker |
| Workers.QueueIsRun | corRestInit.c:1072-1100 | and so is every request queued, in order, without another request or the shutdown |
| Workers.StartedIsGood | corRestInit.c:1135-1193 | for any counts asked for: one to sixty-four shards, every one with a worker |
| Workers.ShutdownEnds | corRestInit.c:1207-1239 | after the broadcast, a run without new requests has no more steps than the queues and the workers account for |
| Workers.JoinGetsOn | corRestInit.c:1225-1226 | until all are joined, the worker joined next has exited or can get on: the join cannot hang |
| Workers.JoinedIsDrained | corRestInit.c:1207-1239 | all joined: every request that came before its shard's last worker went was run |
| WorkQueue.CorRestWorkQueue.Enqueue | corRestInit.c:1056-1070 | the linked queue has the request at its end |
| WorkQueue.CorRestWorkQueue.Dequeue | corRestInit.c:1088-1092 | the oldest request, the others in order; none from an empty queue |
| WorkQueue.DealShards | corRestInit.c:1135-1193 | the loop deals the workers as the pool is said to start, every shard served |
| Stream.StepKeeps | corRestBackendMhd.c:144-309 | every operation under the mutex keeps the invariants |
| Stream.EveryRun | corRestBackendMhd.c:144-309 | in every interleaving: delivered and pending are what was accepted, in order, and pending within the maximum; the end is said after all was delivered; nobody live stays suspended with something to see; freed once, by the last owner |
| Stream.EndIsFinal | corRestBackendMhd.c:164-165 | nothing is accepted after the end was said |
| Stream.WriteTells | corRestBackendMhd.c:241-293 | "ok" means accepted and the reader going; else nothing was added; after a cut never again |
| Stream.WriteOkWhen | corRestBackendMhd.c:241-293 | "ok" exactly when the connection is there and uncut and the bytes fit the maximum and memory, or there are none and the client is not seen gone; then they are behind all that is pending |
| Stream.ReadGives | corRestBackendMhd.c:144-174 | one read: as many bytes as there are and are asked for, the next ones; the end when it was said and nothing is left; else the connection waits |
| Stream.PendingIsDelivered | corRestBackendMhd.c:144-174 | reads of a byte at least deliver all that is pending, in at most one a byte |
| Stream.EndIsReached | corRestBackendMhd.c:144-174 | an ended, uncut body is delivered whole and said to be over in at most one read a byte, plus one |
| Stream.CorRestStream.StreamRead | corRestBackendMhd.c:144-174 | the buffer does what the abstract read does, and the server's bytes are the next ones |
| Stream.CorRestStream.Grow | corRestBackendMhd.c:262-278 | doubling makes room and keeps the pending bytes |
| Stream.CorRestStream.StreamWrite | corRestBackendMhd.c:241-293 | the buffer does what the abstract write does, growth and its failure included |
| Stream.CorRestStream.EndMark | corRestBackendMhd.c:301-309 | the end is marked and a suspended reader resumed |
| Stream.CorRestStream.FreeMark | corRestBackendMhd.c:181-195 | the connection is gone |
| Stream.CorRestStream.Release | corRestBackendMhd.c:106-118 | a reference fewer; freed exactly by the last |
| ClientMulti.CorRestClientMulti.StartConnect | corRestClientMulti.c:334-494 | a connection is held by the entry, or none is and the failure told; a dead pooled one is closed |
| ClientMulti.CorRestClientMulti.Retry | corRestClientMulti.c:792-822 | the failed pooled connection is closed, and the entry is started over on another, or ends |
| ClientMulti.CorRestClientMulti.OnConnecting | corRestClientMulti.c:737-775 | the entry is the one AfterConnecting gives: on to writing, to the next address, or done with an error |
| ClientMulti.CorRestClientMulti.OnWriting | corRestClientMulti.c:777-845 | the entry is the one AfterWriting gives: what was sent is counted, the whole request before reading; a failure retries once or ends |
| ClientMulti.CorRestClientMulti.OnEnded | corRestClientMulti.c:878-968 | at the end of a connection, by the bytes read: the response they parse to, in a parse C defines, the one retry, what a second parse finds when the peer closed - a response, nothing, or what C leaves open - or an error |
| ClientMulti.CorRestClientMulti.OnBytes | corRestClientMulti.c:970-1013 | with these bytes more: over the cap, complete and parsed, malformed, or read on while the check finds them unfinished; a complete one is parsed as C defines |
| ClientMulti.CorRestClientMulti.OnReading | corRestClientMulti.c:847-1013 | the entry is what reading the event's parts one after the other gives, up to one behind which there is no more to read |
| ClientMulti.ClosedIsTold | corRestClientMulti.c:926-968 | the peer gone, what it sent no response, its lines ended by CR LF: told as closed if and only if the bytes stop inside a line or there is no status line; else a response without a body and a connection for the pool |
| ClientMulti.CutShortIsAccepted | corRestClientMulti.c:926-945 | a run: two of five announced bytes, and the entry ends well |
| ClientMulti.AcceptedMeans | corRestClientMulti.c:878-945 | what an entry is given, with such lines, is what its bytes say, or a response without a body when they stop inside no line |
| ClientMulti.UndefinedWhen | corRestClientMulti.c:878-945 | an entry leaves what C defines exactly when the peer closes on such bytes and no first parse and no retry came in between |
| ClientMulti.RunsIntoUndefined | corRestClientMulti.c:926-945 | a run that does |
| ClientMulti.CorRestClientMulti.OnEvent | corRestClientMulti.c:725-1020 | one event changes its entry only, to exactly what AfterEvent gives for the entry's state, and so many connections are obtained |
| ClientMulti.CorRestClientMulti.EndAll | corRestClientMulti.c:669-718 | every entry still open ends with this error, the finished ones as they were |
| ClientMulti.CorRestClientMulti.Cleanup | corRestClientMulti.c:1023-1059 | a connection goes to the pool exactly when its entry has no error and keep-alive, every other is closed |
| ClientMulti.CorRestClientMulti.Perform | corRestClientMulti.c:606-1064 | for every trace: the history is the openings one by one and then the events one by one, of the rounds up to where all entries are done, the deadline comes, or a wait cannot be had, which end the open ones with their own errors; the count is right at every point and no entry goes back twice; the run is defined unless an entry's second parse is one C leaves open, and so always when lines end in CR LF; then all are done, and every connection obtained is pooled or closed, once |
| MultiEntry.OneDescent | corRestClientMulti.c:792-822 | in any run of moves an entry goes back once at most, from writing or reading on a connection of the pool, and is marked retried by it |
| MultiEntry.OnwardAlong | corRestClientMulti.c:725-1020 | between any two points of a run: done is final, retried stays, and unless it was retried in between an entry is no further back |
| MultiEntry.EventKeeps | corRestClientMulti.c:725-1020 | what an event makes of an entry keeps: a response is what the bytes of a connection say that the whole request went to; and it is a move on, or the one retry of a pooled connection on another, and never of a finished one |
| MultiEntry.CapIsOnTheBody | corRestClientMulti.c:176-189 | the cap is on what follows the first empty line; before there is one, sixty-four kilobytes more are let through; none is no cap |
| MultiFetch.EachOnItsOwn | corRestClientMulti.c:725-1020 | in every run an entry is changed by its own events only, whatever the others obtain |
| MultiFetch.AddressesRunOut | corRestClientMulti.c:737-775 | an address that refuses leaves fewer to try, or was the last and the entry fails; connected, the entry goes on to writing |
| MultiFetch.Sent | corRestClientMulti.c:777-845 | the request goes out in any pieces: reading begins when all of it is written, and not before |
| MultiFetch.Received | corRestClientMulti.c:847-1013 | the response comes in any events and pieces, unfinished to the check up to its last: the entry has it then, and all its bytes before |
| MultiFetch.FetchedInRun | corRestClientMulti.c:606-1064 | in every run: an entry that got a connection, whose events are a connection made, its request written and a response read in any pieces, ends with what all the bytes parse to |
| MultiFetch.StartsOver | corRestClientMulti.c:892-922 | the peer gone before a byte came: on a pooled connection the request starts over on another, once; else the entry ends as closed, or as failed to receive |
| MultiFetch.StartsOverWriting | corRestClientMulti.c:792-831 | likewise when the connection cannot be written to |
| ClientMulti.LoseConn | corRestClientMulti.c:1023-1059 | giving up a connection keeps the ledger: each held by one entry, pooled, or closed |
| ClientPool.BucketHash | corRestClientPool.c:51-63 | the hash, wrapped to 32 bits at every character |
| ClientPool.HashOfTwo | corRestClientPool.c:51-63 | the bucket of a host of two characters, written out |
| ClientPool.BucketsAreShared | corRestClientPool.c:238-252 | ports 64 apart share a bucket for every host, and so its cap |
| ClientPool.CorRestClientPool.EvictExpired | corRestClientPool.c:84-110 | the first expired connection of the bucket is closed, and that one only |
| ClientPool.EvictionMeans | corRestClientPool.c:84-110 | one at most goes, the first that was idle for too long by the clock, and the others stay in their order |
| ClientPool.FirstForMeans | corRestClientPool.c:178-184 | the connection found is the first with this host, this port and this TLS |
| ClientPool.CorRestClientPool.Unlink | corRestClientPool.c:95-97 | one connection out of its linked list, every other list and connection where it was, the counts following |
| ClientPool.CorRestClientPool.Get | corRestClientPool.c:167-214 | which connection is found: the first that matches once the first expired is gone; it is the caller's exactly if its peer is alive, else closed, with its TLS session left open if and only if it had one |
| ClientPool.CorRestClientPool.Put | corRestClientPool.c:222-263 | the connection is linked at the front of its own bucket, or closed, exactly as its descriptor and the cap say; counts and total follow |
| ClientPool.CapIsPerHostWhen | corRestClientPool.c:238-252 | the bucket's count reaches a cap when a host's own does, for every cap, if and only if the bucket holds no other host; and for one cap, unless the cap is between the two |
| ClientPool.HostsShareABucket | corRestClientPool.c:51-63 | two hosts with the same hash |
| ClientPool.OtherHostKeepsOut | corRestClientPool.c:222-263 | a run: a connection with a good descriptor is closed although its host has none idle |
| ClientPool.ExpiredExactly | corRestClientPool.c:84-110 | for all times: when the unsigned difference counts as expired; and an expired connection was idle for too long if and only if it was not put back after the clock was read |
| ClientPool.PutAfterTheClock | corRestClientPool.c:167-214 | put back at one time and looked for at another: closed if and only if it counts as expired or is dead; so with the clock read before |
| ClientPool.DeadTlsLeaks | corRestClientPool.c:192-204 | a run: a dead TLS connection is closed and its session is not |
| Routes.ServicePrepare | corRestInit.c:106-228 | a registered URL of a good pattern is prepared to its lengths, sums, suffix and greediness |
| Routes.MatchesWild | corRestServiceLookup.c:116-168 | a wildcard can stand for one text of a path only, and when |
| Routes.IsUrlForm | corRestServiceLookup.c:27-40 | exactly the texts that start with a scheme and "://" |
| Routes.SchemeMeans | corRestServiceLookup.c:27-40 | a scheme is a small letter and then small letters, digits, plus, dot and minus, with "://" behind it |
| Routes.RequestPrepare | corRestServiceLookup.c:50-75 | the sums of the path's first 64 prefixes, and its length |
| Routes.MatchOne | corRestServiceLookup.c:95-168 | the length and sum filters reject no match and let no mismatch through |
| Routes.ServiceLookup | corRestServiceLookup.c:83-168 | the first route in table order that matches; the path whole, or cut so that the wildcard reads back exactly |
| RouteAnswers.EmptySegmentMeans | corRestInit.c:533-602 | a segment is empty where two slashes stand together, and only there |
| RouteAnswers.AllowList | corRestInit.c:561-582 | the names of exactly the other verbs whose tables match the full path, in order, although each probe may cut it; its 128 bytes suffice |
| RouteAnswers.OthersAre | corRestInit.c:561-582 | those verbs are the ones that would serve the path, each once |
| RouteAnswers.VerbTexts | corRestInit.c:561-582 | the names of the verbs that are short |
| RouteAnswers.LongVerbTexts | corRestInit.c:561-582 | and of the two long ones |
| RouteAnswers.NamedJoins | corRestInit.c:561-582 | names are joined by a comma and a blank |
| RouteAnswers.Dispatch | corRestInit.c:533-602 | a route's path is served; else 400 for an empty segment, 405 with that list if it is not empty, 404 if and only if no verb serves the path |
| RoutesBuild.CountRoutes | corRestInit.c:1532-1548 | the room counted for each verb's table is what the table needs, HEAD's copies of GET and every path for OPTIONS included |
| RoutesBuild.UrlTellsPattern | corRestInit.c:1591-1598 | two good patterns with the same URL are the same, so comparing URLs finds duplicates |
| RoutesBuild.Distribute | corRestInit.c:1565-1582 | one service goes to the end of its verb's table, and of HEAD's for a GET, and to no other |
| RoutesBuild.Build | corRestInit.c:1530-1615 | every verb's array holds its table, prepared, never past its room |
| RoutesBuild.TablesServe | corRestInit.c:1530-1615 | a verb serves a path exactly when a service declared for it matches, HEAD when a GET's does too, OPTIONS when any does |
| RoutesBuild.FirstDeclared | corRestInit.c:1565-1582 | the route a request is given is the first declared of its verb that matches, for HEAD of its own and GET's |
| RoutesBuild.AllowSaysOptions | corRestInit.c:561-602 | the Allow list of a 405 always has OPTIONS, and HEAD when it has GET; OPTIONS itself is never answered 405 |
| UrlCodec.DecodeUndoesEncode | corRestUrlValueEncode.c:61-150 | decoding undoes encoding for every string of bytes |
| UrlCodec.EncodedIsPlain | corRestUrlValueEncode.c:47-53 | an encoded value is made of what can be seen, without '&', '#', '+' and '?'; it has an '=' exactly when the value has |
| UrlCodec.EscapeMeans | corRestUrlValueEncode.c:61-101 | which bytes stay as they are, and that any other becomes a percent sign and its two hex digits as capitals |
| UrlCodec.EscapesAreRead | corRestUrlValueEncode.c:124-150 | an escape is read whatever the case of its digits |
| UrlCodec.LonePercentStays | corRestUrlValueEncode.c:124-150 | a percent sign without two hex digits behind it stays |
| UrlCodec.EncodeValue | corRestUrlValueEncode.c:61-101 | the two loops compute the encoding, in exactly the bytes counted |
| UrlCodec.DecodeInPlace | corRestUrlValueEncode.c:124-150 | the decoded string is where the encoded one was, and nothing outside it changes |
| UriParams.QueryRoundTrip | corRestInit.c:270-314 | joining encoded pairs, turning plus signs to spaces and parsing gives every pair split at its name's first '='; the same pairs if and only if no name has one |
| UriParams.QueryMeans | corRestInit.c:270-314 | a query is its parameters, one to an ampersand: a name, and a value behind its first equals sign or an empty one |
| UriParams.PlusMeans | corRestBackendBuiltin.c:484-488 | a space for every plus, and nothing else changes |
| UriParams.Params.Add | corRestInit.c:236-256 | one more at the end, whether or not the array has to grow |
| UriParams.PlusPass | corRestBackendBuiltin.c:484-488 | every plus sign of the query becomes a space, and nothing else changes |
| UriParams.ParseParam | corRestInit.c:279-312 | one parameter: name and value decoded in place, the bytes after it as they were |
| UriParams.ParseParams | corRestInit.c:270-314 | the array's strings are what the query says, all and in order |
| Accept.ExtractQ | corMimeType.c:115-141 | the first q of an entry, clamped, or one |
| Accept.EntriesReadBack | corMimeType.c:158-176 | a header written as entries with commas between them and blanks in front is read as those entries |
| Accept.SeparatorsAre | corMimeType.c:76-141 | what separates entries, names and parameters: blank and tab, and the semicolon |
| Accept.KindReadsBack | corMimeType.c:188-198 | the five names that are looked for, in any case, and the types they stand for; any other name is none |
| Accept.QReadsBack | corMimeType.c:115-141 | a q in the first parameter is its number, kept between nought and one; one without a q |
| Accept.QBehind | corMimeType.c:115-141 | a q behind other parameters is found |
| Accept.TracksOn | corMimeType.c:200-211 | the running best of a type is its first entry with its highest q |
| Accept.PickIsRight | corMimeType.c:218-244 | comparing the three bests finds the first of all acceptable entries with the highest q, or that there is none |
| Accept.RightIsOne | corMimeType.c:144-157 | what a header should come to is one type |
| Accept.AcceptParse | corMimeType.c:158-245 | the pass returns that type: none exactly when a non-empty header has no acceptable entry, JSON for none or an empty one |

## Left out

- Sockets, epoll, DNS, TLS, libmicrohttpd, the coroutine library: nondeterministic outcomes; a wake only makes a coroutine runnable.
- The HELLO exchange's contents: it is refused, or both ends open their tables, or that fails.
- The tree codec's byte format: any codec with the round-trip law; a failed encoding ends the modelled run.
- Reuse of a client slot for another peer, and the retry on a fresh connection: the theorems are about one connection, with fewer than 2^32 calls.
- CorMuxTheorems.ReplyIsItsOwn: reading a frame is one step, from the lookup of its call to the end of that call.
- CorServerConn.ServerConn.Session: what coroutines answer later is not queued within it; the transition system of CorMux has those answers, in any order.
- CorServerConn.ServerConn.FrameAssemble: memory for a body is always there.
- CorConnRefs.EveryRun: one event of a connection at a time, and a thread for a dedicated connection can be started.
- HttpResponse.CompleteParses: header lines without NUL and Content-Length values both readers take for the same (CompleteParsesExactly has the others); C's int and long are unbounded here.
- HttpDechunk.DechunkInPlace: a negative chunk size, which C's memmove does not define, is an answer of its own.
- HttpParseInPlace.ParseResponse: memory for the copy and for more headers is always there.
- Workers.EveryRun: requests that come after all of a shard's workers have gone are told apart, not claimed to be run; threads can be created.
- Stream.CorRestStream.StreamWrite: sizes are unbounded integers, not size_t.
- ClientMulti.CorRestClientMulti.OnEnded: what dechunking leaves of a body that does not parse comes from the trace.
- ClientMulti.CorRestClientMulti.Perform: nothing is said of what the program does once a parse is not defined.
- ClientMulti.CorRestClientMulti.Add: one call of Perform per engine, after the entries are added.
- CorConn.CorConn.FrameRecv: a body that memory is not there for is a failed read, whatever its length.
- CorConn.CorConn.Serve: all the bytes that ever come are there from the start, a blocking read takes any part of them.
- ClientPool.CorRestClientPool.Get: the pool was initialised; the table of 64 buckets is a value that is replaced, its lists are linked through the connections.
- Routes.ServiceLookup: routes with two or three wildcards, and patterns beyond the arrays' bounds, are not in the tables.
- UriParams.ParseParams: the array starts empty and memory for its growth is always there.
- Accept.AcceptParse: strtod gives a real number; NaN and its own syntax are not modelled.
- Hooks, logging, CORS and header policy, proxies, start-up and the test server: easy or I/O-bound.
