# Verified models of the web server and of the reactor library

The repository holds two servers. `bck/` is an epoll and thread-pool HTTP server: a dispatcher
thread reads from one-shot sockets, a bounded work queue hands the connections to workers, and a
resumable parser and sender do the HTTP work in fixed buffers. `src/` is a reactor library: event
loops with a wakeup descriptor, a poller over epoll, growable buffers, connections and a server
that spreads connections over loops. This project models the parts of both that carry state across
calls or threads, and proves what they keep.

The files, with one module each:

- `CStrings.dfy`, `Decimal.dfy`, `Basics.dfy`: the C string routines as pure functions, the `%d`
  rendering, and `Option`.
- `RequestSpec.dfy`: what the request parser computes, as a function of the bytes received: cut at
  CR LF, hand every line to the state machine, stop at the first verdict.
- `RequestGrammar.dfy`: the form of a request line, on the bytes alone, and what the parser's verdicts
  say about it.
- `RequestBody.dfy`: what becomes of a request body that arrives in several pieces.
- `RequestReader.dfy`: the class with the 2048-byte buffer and its indices, which overwrites
  separators in place and survives arbitrary cuts between rounds, proved to compute the former.
- `RequestRoundTrip.dfy`: the printer of requests, and print-then-parse.
- `ResponseText.dfy`: the text of a response, and what a client reads in it.
- `ResponseSender.dfy`: the bounded printer and the two-segment `writev` resumed after partial sends.
- `ThreadPool.dfy`: mutex, semaphore and queue as a transition system.
- `OneShot.dfy`: dispatcher, kernel and workers around that pool: who owns a connection when.
- `EventLoop.dfy`: the loop thread and its callers as a transition system: wakeups, functors, quit.
- `Buffer.dfy`, `EpollPoller.dfy`, `TcpConnection.dfy`, `TcpServer.dfy`: the classes of the library.

Code that updates fields and buffers is a class with methods; protocols between threads are
transition systems in which a run is any list of steps that are enabled one after the other, so
a statement about `After(Initial, steps)` is a statement about every reachable state. The results
of system calls (`recv`, `writev`, `write`, `readv`, `epoll_wait`, the semaphore) are parameters or
free choices of a step.

## Where the code departs from what it says

- `bck/src/http_conn.cpp:216` compares the running total of sent bytes with the length of the
  header segment, which shrinks with every partial send. `SendExact` and `RunExact` give the exact
  condition under which this is right, for one send and for every series of sends;
  `MisjudgedExample` is a series that fails.
- `bck/src/http_conn.cpp:357-358` and 396: after an incomplete body the splitter runs over body bytes
  and moves the point that the size test counts from. Heads are independent of how the bytes are cut;
  bodies are not. `BodyCountStartsOver` says exactly what one round leaves for the next, for bytes of
  any kind, `TwoPiecesExactly` when a body cut in two is treated as if it had come at once, and
  `BodyArrivesExactly` which divisions of a whole request into arrivals ever complete it;
  `BodyDependsOnChunks` is a request that is complete in one arrival and incomplete in two.
- `bck/src/http_conn.cpp:543-547` takes a negative Content-Length, and line 566 then stores the terminator
  in front of the end of the head, where it may cut off the url or the version. `TerminatedExactly`
  says over all streams when it does, `ServeNegative` what url is left of any printed request, and
  `NegativeLengthCutsUrl` is a request for `/abc` that is served as `/a`.
- `bck/src/http_conn.cpp:599-603`, the branch for an LF whose CR was passed over by an earlier call,
  is dead: `ParseLine` proves it.
- `bck/src/http_conn.cpp:165-173`: filling the buffer to its last byte makes `recv` return 0, which
  counts as the peer's close; `Read` states the resulting limit of 2047 bytes.
- `bck/src/http_conn.cpp:470-473` leaves the amount to send at zero for failure responses, which are
  therefore never sent: `FailureIsNotSent`.
- `bck/src/http_conn.cpp:630-633` closes the descriptor before the worker's last access. Ownership of a
  connection is exclusive exactly as long as `process_write` does not fail inside that connection:
  `OwnershipExactly` proves both directions over all runs, and `OwnershipNeedsSuccessfulWrites` is a
  complete run that breaks it. `ProcessWrite` says exactly when `process_write` fails: never from a
  fresh buffer, and otherwise if the text of a failure response does not fit behind what is left of
  earlier responses. So the step `FailClose` stands for objects that are used again after a close
  without `init()` (`bck/src/http_conn.cpp:93-104`); for a connection whose object has been through
  `init()` before every response, ownership holds without a hypothesis. `WornOut` brings an object
  to the failure by such reuse, and the run above has any number of earlier lives of the descriptor.
- `bck/src/main.cpp:120` ignores the verdict of `append`. `StalledExactly` says over all runs which
  connections stall, `StalledForEver` what becomes of them, and `RefusalHappens` that every run of
  every server can go on to such a refusal.
- `bck/include/threadpool.h:79` admits one task more than the configured maximum: `QueueBoundIsTight`.
- `src/EventLoop.cc:109` and 137 lock a fresh local and not the member. The two scoped blocks are
  taken as atomic steps, as the comments intend; this is an assumption of the model.
- `src/EventLoop.cc:113` does not announce what the loop thread queues outside `loop()`, as a thread
  callback may do (`src/EventLoopThread.cc:46-48`). `LostExactly` says over all runs when poll blocks
  over such work, and `EarlyEnqueueIsLost` is such a run.
- `src/EventLoop.cc:68` clears the quit flag. `QuitForgottenExactly` says over all runs when a quit is
  forgotten, and `EarlyQuitIsForgotten` is such a run.
- `src/EpollPoller.cc:71-77` registers a channel without interest if it is disabled before it was
  added or twice in a row: `DisableAll` says when, and `DisabledTwice` is the second case, the one that
  `handleClose` and `connnectionDestroyed` run into (`src/TcpConnection.cc:82-90` and 185-193).
- `src/TcpConnection.cc:128` and 145-158 keep `len + 1` bytes, and only on a fault that crosses the
  high-water mark, contrary to the comment; the remainder of a successful partial write is dropped. `SendInLoop` says
  exactly which messages get through whole.
- `src/TcpConnection.cc:162-173`: a shutdown that runs after the connection was closed may close the
  write side over buffered bytes: `ShutdownInLoop` says exactly when, and `ShutdownAfterClose` is a
  series of calls in which it does.
- `src/TcpServer.cc:51-54` cuts names off at 63 characters: `NamesUniqueExactly` gives the longest
  address for which they stay unique, far above what an IPv4 address takes.

## Model

| member | source | states |
|---|---|---|
| RequestSpec.ScanResumes | bck/src/http_conn.cpp:582-608 | resuming the scan anywhere in the already scanned part of a line gives the verdict of a scan from its start |
| RequestSpec.ScanExactly | bck/src/http_conn.cpp:582-608 | where a scan ends and with which status, told from the bytes CR and LF alone |
| RequestSpec.ScanExtends | bck/src/http_conn.cpp:582-608 | later bytes never change a finished line and never repair a bad one; the scan position only moves forward |
| RequestSpec.ParseExtends | bck/src/http_conn.cpp:350-409 | parsing a prefix and carrying on when more has arrived equals parsing everything at once, from every intermediate state |
| RequestSpec.ChunkIndependence | bck/src/http_conn.cpp:350-409 | for every division of a stream into arrivals, lines, url, version, linger flag and first verdict of a head equal those of one-shot arrival |
| RequestSpec.StoppedStays | bck/src/http_conn.cpp:373-386 | what stops the parser on a prefix is its verdict on every continuation of the stream |
| RequestSpec.BadLineIsFinal | bck/src/http_conn.cpp:596-604 | LINE_BAD is absorbing: on every continuation the scan stops bad at the same index and no verdict is reached |
| RequestSpec.FramingIsExact | bck/src/http_conn.cpp:361-364 | the lines handed to the state machine, each with its CR LF, are exactly the consumed bytes of the stream |
| RequestSpec.LingerIsExact | bck/src/http_conn.cpp:535-541 | the linger flag is set exactly if one of the header lines is a Connection field that says keep-alive |
| RequestSpec.BodyMustBeDeclared | bck/src/http_conn.cpp:526-547 | the Content phase is entered only after a header line with a nonzero Content-Length |
| RequestBodies.BodyRoundVerdict | bck/src/http_conn.cpp:562-571 | a round completes a body exactly if enough bytes lie past the checked index when it starts |
| RequestBodies.BodyCountStartsOver | bck/src/http_conn.cpp:357-398 | for bytes of any kind: a failed round leaves the point to count from where it was exactly if nothing of the body has arrived or a stray line break comes first, and the next round completes exactly if the declared length lies behind that point |
| RequestBodies.TwoPiecesExactly | bck/src/http_conn.cpp:357-398 | a body cut in two has the verdict of one-shot arrival, for every second piece, exactly if the first round has not moved that point |
| RequestBodies.HeadRounds | bck/src/http_conn.cpp:350-409 | over every division into arrivals of a head that declares no body, the first verdict is that of one-shot arrival |
| RequestBodies.ContentRounds | bck/src/http_conn.cpp:390-397 | over every division of a request with a body, the rounds are complete or have no verdict, never bad |
| RequestBodies.BodyRoundsExactly | bck/src/http_conn.cpp:390-397 | rounds over the pieces of a body of the declared length complete it exactly if no piece but the last has moved the count |
| RequestBodies.ParseLocal | bck/src/http_conn.cpp:366-386 | what has stopped the parser is decided by the bytes it has consumed |
| RequestBodies.BodyArrivesExactly | bck/src/http_conn.cpp:350-409 | for every request whose bytes end with its declared body and every division into arrivals, the verdict is reached exactly if after no arrival but the last the body has begun, unless with a stray line break |
| RequestBodies.NegativeCompletes | bck/src/http_conn.cpp:562-571 | over every division into arrivals, a head that declares a negative length is a complete request |
| RequestBodies.HeadLiesInStream | bck/src/http_conn.cpp:481-519 | url and version are the stretches of the stream at their offsets in the request line, one behind the other and in front of the body |
| RequestBodies.TerminatedExactly | bck/src/http_conn.cpp:562-571 | the terminator leaves the url as it was exactly if the declared length does not reach back into the url's stretch of the stream, the version likewise; a length that is not negative damages neither |
| RequestReader.HttpConn.constructor | bck/src/http_conn.cpp:111-135 | the initial state satisfies the parser's invariant on the empty stream |
| RequestReader.HttpConn.Reset | bck/src/http_conn.cpp:111-135 | from any state, init() re-establishes the invariant on the empty stream with a zeroed buffer |
| RequestReader.HttpConn.Read | bck/src/http_conn.cpp:156-179 | the received stream grows by what arrived, up to the buffer; success exactly if the socket would block and at most 2047 bytes are in |
| RequestReader.HttpConn.ParseLine | bck/src/http_conn.cpp:578-609 | status, index and rewritten buffer are those of a scan of the received stream; the branch for an LF after a passed-over CR is unreachable |
| RequestReader.HttpConn.CutBlank | bck/src/http_conn.cpp:483-487 | cutting a string at its first blank yields the two parts as C strings and disturbs no earlier pointer |
| RequestReader.HttpConn.ParseRequestLine | bck/src/http_conn.cpp:481-519 | verdict, phase and the strings behind the url and version pointers are those of the request-line step on the line's text |
| RequestReader.HttpConn.ParseTarget | bck/src/http_conn.cpp:496-503 | the second half of the request line, in place, equals the step on the string behind the method |
| RequestReader.HttpConn.ParsePath | bck/src/http_conn.cpp:505-518 | scheme and host are dropped by advancing the start of the url; what is left must start with a slash |
| RequestReader.HttpConn.ParseRequestHeader | bck/src/http_conn.cpp:525-559 | linger flag, length, phase and verdict are those of the header step on the line's text |
| RequestReader.HttpConn.ParseRequestContent | bck/src/http_conn.cpp:562-571 | complete exactly if enough bytes lie past the checked index; the terminator is the only byte written, and exactly when it lies outside the buffer: never for a length that is not negative and a buffer that is not full |
| RequestReader.StoreClips | bck/src/http_conn.cpp:566-566 | a NUL is seen by a pointer exactly if it falls inside its string, which it then cuts off |
| RequestReader.HttpConn.TestBody | bck/src/http_conn.cpp:562-571 | verdict of the size test, and url and version after its store, for any declared length |
| RequestReader.HttpConn.NextLine | bck/src/http_conn.cpp:357-364 | a complete line is left behind as a C string, and url, version, flag and length still read the same |
| RequestReader.HttpConn.HeadTurn | bck/src/http_conn.cpp:357-388 | one turn of the loop leaves the parse of the whole stream unchanged and moves the index forward |
| RequestReader.HttpConn.ReadHead | bck/src/http_conn.cpp:357-388 | the loop ends, with the head, start index and verdict of the parse of the whole stream |
| RequestReader.HttpConn.ReadBody | bck/src/http_conn.cpp:357-398 | the loop ends in the Content phase too, with the verdict and index of a body round; url, version and flag are kept but for what the terminator of a complete body cuts off |
| RequestReader.HttpConn.ProcessRead | bck/src/http_conn.cpp:350-409 | from every reachable state: terminates, keeps start <= checked <= read, parses the head as if all received bytes had come at once, and leaves url and version as parsed but for what the terminator of a complete body cuts off |
| RequestReader.HttpConn.Serve | bck/src/main.cpp:118-120 | over any arrivals that fit the buffer, whatever length they declare: the verdict of the rounds, url, version, flag and length of the undivided stream but for what the terminator of a complete body cuts off, its verdict too if it declares no body, bad request exactly for a first line without the form, and complete only for a head |
| RequestGrammar.RequestLineComplete | bck/src/http_conn.cpp:481-519 | every line of the form method, blank, target, blank, version is accepted, with exactly the target's path as url |
| RequestGrammar.RequestLineSound | bck/src/http_conn.cpp:481-519 | every accepted line has that form, and the url is the path in it |
| RequestGrammar.PathExact | bck/src/http_conn.cpp:505-512 | a target is accepted with a url exactly if the url is the target, or what follows scheme and host in it |
| RequestGrammar.SameWordIs | bck/src/http_conn.cpp:490-503 | strcasecmp accepts exactly the same letters in either case |
| RequestGrammar.RequestLineVerdict | bck/src/http_conn.cpp:481-519 | a line of that form gets no verdict yet, and any other is a bad request |
| RequestGrammar.VerdictExactly | bck/src/http_conn.cpp:350-409 | for every stream: bad request exactly if the first line lacks the form; complete exactly if the lines are a head whose last declared length, if any, is zero; a body to come exactly if it is not |
| CStrings.AtolIs | bck/src/http_conn.cpp:547-547 | atol reads white space, a sign or none, and the decimal value of the digits, whatever follows |
| RequestRoundTrip.HeaderTextStep | bck/src/http_conn.cpp:535-556 | a printed header field has exactly the effect that its name and value call for, whatever blanks separate them |
| RequestRoundTrip.FieldName | bck/src/http_conn.cpp:535-543 | the prefix comparison recognises a field exactly if the colon-free name equals the key, ignoring case |
| RequestRoundTrip.HeadersParse | bck/src/http_conn.cpp:525-559 | a printed list of headers parses to the complete-request verdict or, if a length was declared, to the Content phase, consuming exactly its bytes |
| RequestRoundTrip.HeadersLeave | bck/src/http_conn.cpp:535-547 | all that header fields leave behind: the flag iff one is Connection with keep-alive, and the length of the last Content-Length |
| RequestRoundTrip.RoundTrip | bck/src/http_conn.cpp:481-559 | printing and parsing any well-formed request gives exactly its url, the linger flag iff some Connection field is keep-alive, the declared length, and the complete-request verdict iff that is zero |
| RequestRoundTrip.ServePrinted | bck/src/http_conn.cpp:350-409 | the same through the connection object, for every way the printed bytes and a body of the declared length arrive, with the exact condition for completeness |
| RequestRoundTrip.ServeNegative | bck/src/http_conn.cpp:562-571 | any printed request with a negative length is complete in any division, with the printed url, cut off exactly where the terminator falls into it |
| RequestRoundTrip.BodyDependsOnChunks | bck/src/http_conn.cpp:390-397 | a whole request through the connection object: complete in one arrival, incomplete in two |
| RequestRoundTrip.NegativeLengthCutsUrl | bck/src/http_conn.cpp:562-571 | a whole request for /abc that is served as /a |
| ResponseSender.SendAccounts | bck/src/http_conn.cpp:213-223 | sent and to-send bytes add up after every send, whatever branch is taken |
| ResponseSender.SendExact | bck/src/http_conn.cpp:213-223 | a send keeps "sent plus described equals header plus file" exactly if it is not one of the misjudged ones |
| ResponseSender.RunExact | bck/src/http_conn.cpp:195-242 | a series of partial sends stays faithful throughout exactly if none of them is misjudged |
| ResponseSender.DrainedRunDelivers | bck/src/http_conn.cpp:185-244 | a drained series without a misjudged send has put exactly header and file on the wire |
| ResponseSender.WholeHeadIsSafe | bck/src/http_conn.cpp:216-219 | if the first send takes the whole header, no later send is misjudged |
| ResponseSender.MisjudgedExample | bck/src/http_conn.cpp:216-219 | for every head of four bytes or more two sends after which a segment starts in front of the file |
| ResponseSender.ProgressDrains | bck/src/http_conn.cpp:195-242 | if every send makes progress, the loop has drained after at most as many turns as there were bytes |
| ResponseSender.HttpResponder.AddResponse | bck/src/http_conn.cpp:249-264 | a piece is accepted whole or not at all, the prefix is the concatenation of the accepted ones, and the index never exceeds 2046 |
| ResponseSender.HttpResponder.AddAll | bck/src/http_conn.cpp:267-299 | of any pieces, those that fit behind the ones accepted before are accepted, in order, and the others skipped |
| ResponseSender.ResponseIsShort | bck/src/http_conn.cpp:417-474 | every response fits a fresh buffer, none of its pieces is skipped |
| ResponseTexts.ResponseReads | bck/src/http_conn.cpp:10-19 | the text of every response, cut at CR LF, is a status line with version, code and reason of the verdict, one length line that reads back as the size of the body, the type, a keep-alive line iff the connection is kept and a close line otherwise, an empty line, and the text of the failure |
| ResponseTexts.CutPrinted | bck/src/http_conn.cpp:267-299 | unbroken lines, only the last of them empty, are cut apart again |
| ResponseSender.HttpResponder.ProcessWrite | bck/src/http_conn.cpp:417-474 | from any state of the printer: what is printed, exactly when it fails (never from a fresh buffer), a file response described in full, and the amount to send untouched by a failure response; from a fresh buffer the printed bytes read as the response they should |
| ResponseSender.WornOut | bck/src/http_conn.cpp:93-104 | an object used again and again without init() comes to a failure response that process_write cannot print, whatever the file and the failure |
| ResponseSender.HttpResponder.KeepBooks | bck/src/http_conn.cpp:213-223 | the fields after a send are those of the bookkeeping function |
| ResponseSender.HttpResponder.SendLoop | bck/src/http_conn.cpp:195-242 | the loop performs the series of sends that the results of writev make up, each cut at what is left; broken exactly at an error, blocked exactly at EAGAIN or the end of the results, drained exactly if nothing is left |
| ResponseSender.HttpResponder.Write | bck/src/http_conn.cpp:185-244 | which sends the results of writev come to and how they end; verdict, rearming and whole state for a drained, blocked or broken response; without misjudged sends a drained one is header plus file, and the others leave a faithful description for the next call |
| ResponseSender.SendRounds | bck/src/http_conn.cpp:199-234 | write() again and again: all calls but the last are blocked, it goes on exactly as long as the response is blocked, and the last one arms the connection or gives it up |
| ResponseSender.Respond | bck/src/http_conn.cpp:185-244 | a whole file response over any number of write() calls: faithful at every send exactly if none is misjudged, and then header plus file on the wire once drained |
| ResponseSender.FailureIsNotSent | bck/src/http_conn.cpp:470-473 | a failure response is printed and dropped, none of it is sent |
| ThreadPool.StepKeepsInv | bck/include/threadpool.h:76-128 | every step of every thread keeps mutual exclusion, semaphore accounting, the bound and the order |
| ThreadPool.QueueNotEmpty | bck/include/threadpool.h:110-113 | a worker that holds the mutex after a wait finds a task |
| ThreadPool.PoolIsSound | bck/include/threadpool.h:76-118 | in every interleaving: length = semaphore + claims + unposted, accepted = popped then queued, at most max + 1 queued, empty branch unreachable |
| ThreadPool.AcceptedWasOffered | bck/include/threadpool.h:76-90 | over every interleaving, what is accepted is for every push the task of that producer's last call, in the order of the pushes |
| ThreadPool.EveryoneCanGoOn | bck/include/threadpool.h:76-128 | nobody is ever stuck: the holder of the mutex is inside and can go on, and who wants it can have it when it is free |
| ThreadPool.NoStrandedTask | bck/include/threadpool.h:85-108 | with work queued and nobody on the way to it or about to post, every waiting worker can proceed |
| ThreadPool.QueueBoundIsTight | bck/include/threadpool.h:76-90 | one producer fills the queue to one more than the configured maximum |
| OneShot.StepKeepsTally | bck/src/main.cpp:96-130 | every step of dispatcher, kernel and workers that is not a failed write inside the connection moves it without copying or losing it |
| OneShot.ExclusiveOwnership | bck/src/main.cpp:88-133 | over every run without a failed write inside the connection, whatever fails inside others, it is not inside two threads, queued twice, or queued or armed while a thread is inside |
| OneShot.EveryConnectionInOnePlace | bck/src/http_conn.cpp:47-86 | over the same runs an open connection is in exactly one of kernel, event batch, append, queue, worker or stalled, a closed one in none |
| OneShot.OpenAndArmedExactly | bck/src/main.cpp:96-130 | over every run, failed writes or not: a connection is open exactly if it was accepted with no close behind, and armed exactly if it was accepted or rearmed with no delivery and no close behind |
| OneShot.EveryoneCanGoOn | bck/src/main.cpp:88-133 | in every reachable state any armed connection can be delivered, any event handled in each of the three ways, any closed descriptor accepted, and any worker can finish |
| OneShot.PoolStaysSound | bck/include/threadpool.h:76-128 | the pool's invariant holds at every point of every run of the whole server |
| OneShot.StalledExactly | bck/src/main.cpp:119-121 | over every run a connection is stalled exactly if some step refused its task, and append refuses exactly if one task more than the maximum is queued |
| OneShot.StalledForEver | bck/src/main.cpp:119-121 | a connection refused after a run without failed writes inside it stays open, and whatever happens then it is never armed, delivered, queued or held by a worker again |
| OneShot.RefusalHappens | bck/include/threadpool.h:76-90 | every run of every server, for every maximum, can go on to the refusal of a fresh connection |
| OneShot.DispatcherComesHome | bck/src/main.cpp:88-133 | from every state of queue, mutex, batch and dispatcher the server can come back to epoll_wait with the mutex free, past every worker left behind in a closed connection |
| OneShot.FailedWriteBreaksOwnership | bck/src/http_conn.cpp:629-633 | from every reachable state with a worker inside an open connection, a failed write has a continuation that breaks ownership |
| OneShot.OwnershipExactly | bck/src/http_conn.cpp:616-635 | after a run without failed writes inside a connection, a further step makes it possible to break its ownership exactly if that step is a failed write inside it |
| OneShot.OwnershipNeedsSuccessfulWrites | bck/src/http_conn.cpp:616-635 | complete runs from the initial state, with any number of earlier lives of the descriptor, to two threads inside one connection |
| EventLoop.StepKeepsInv | src/EventLoop.cc:57-144 | every step of the loop thread, inside or outside loop(), and of any other thread keeps the quit, batch and history invariants |
| EventLoop.LostExactly | src/EventLoop.cc:107-144 | over every run that has come to poll, loop() called any number of times: work is pending, unannounced and about to be announced by nobody exactly if the loop thread queued outside loop() with no swap since, no write to the eventfd is unread, and no thread has queued without writing it |
| EventLoop.NoLostWakeup | src/EventLoop.cc:107-125 | in every run in which the loop thread queues from callbacks only, at poll with work pending the eventfd is readable or a thread is about to write it |
| EventLoop.EarlyEnqueueIsLost | src/EventLoop.cc:113-115 | a run in which poll blocks over what the loop thread queued before loop() |
| EventLoop.ExactlyOnceInOrder | src/EventLoop.cc:132-144 | in every run executed, rest of the batch and pending, in this order, are what the steps of the run have queued |
| EventLoop.EveryoneCanGoOn | src/EventLoop.cc:57-144 | from every place in its loop the loop thread can go on, and where to; poll returns with the wakeup channel only if the eventfd is readable; any other thread can begin and finish |
| EventLoop.BatchIsClosed | src/EventLoop.cc:138-142 | a drain runs an initial piece of the batch it swapped out, at most all of it; what is queued meanwhile goes to the pending list |
| EventLoop.PendingIsServed | src/EventLoop.cc:71-82 | from every reachable poll with work pending that is not lost in that sense and nobody in mid-queueing, the loop thread's own steps run everything ever queued |
| EventLoop.NextDrainServes | src/EventLoop.cc:71-82 | from every reachable poll, in every continuation of all threads in which a drain ends, everything queued before that poll has run, in order |
| EventLoop.QuitIsNotMissed | src/EventLoop.cc:88-95 | in every run, a loop thread at poll with the quit flag set has a readable eventfd or a quitter about to write it |
| EventLoop.QuittersExactly | src/EventLoop.cc:88-95 | over every run: a thread still owes the wakeup of its quit, and the eventfd is readable, exactly if the run has left it so |
| EventLoop.AtMostOneMoreIteration | src/EventLoop.cc:71-95 | once set in a started loop the flag stays set until loop() is called again, and at most the poll in progress returns |
| EventLoop.QuitIsServed | src/EventLoop.cc:71-95 | from every reachable poll with the flag set and no quitter in between, the loop thread's own steps leave the loop |
| EventLoop.QuitForgottenExactly | src/EventLoop.cc:66-95 | over every run the flag is set afterwards exactly if some quit has no start of the loop behind it |
| EventLoop.EarlyQuitIsForgotten | src/EventLoop.cc:66-68 | a run in which a quit issued before loop() has no effect |
| Buffers.Buffer.constructor | src/Buffer.h:41-42 | an empty queue, the indices behind the eight spare bytes |
| Buffers.Buffer.Compact | src/Buffer.h:30-33 | the forward copy to the strictly left preserves the readable bytes |
| Buffers.Buffer.MakeSpace | src/Buffer.h:26-35 | makes the room, keeps the readable bytes, compacts only when the reader is past the spare bytes, and grows to at most twice the need plus seven |
| Buffers.Buffer.Append | src/Buffer.h:85-89 | the bytes join the end of the queue; indices in order, storage within its bound |
| Buffers.Buffer.Retrieve | src/Buffer.h:57-63 | bytes leave at the front, asking for too many empties the buffer |
| Buffers.Buffer.RetrieveAsString | src/Buffer.h:70-74 | the returned text followed by what is left is the former contents |
| Buffers.Buffer.ReadFd | src/Buffer.cc:7-31 | what readv brought, directly or by the spill buffer, joins the queue in order; an error changes nothing |
| Buffers.QueueIsFifo | src/Buffer.h:57-89 | the reference queue neither loses, invents nor reorders a byte |
| Buffers.RunOp | src/Buffer.cc:7-31 | one operation on a buffer is that operation on the reference queue; a read is cut short only by what readv has room for, at least 65536 bytes |
| Buffers.RunBuffer | src/Buffer.h:26-89 | every series of operations is a series on the reference queue, the same but for reads cut short, in storage of at most max(8 + initial, 2 * peak + 7) |
| Epoll.Channel.SetEvents | src/Channel.h:36-55 | any new mask leaves user space and kernel in agreement and other descriptors alone |
| Epoll.EventBits | src/Channel.cc:8-10 | reading is the bits of EPOLLIN and EPOLLPRI, writing that of EPOLLOUT, and disabling clears just these |
| Epoll.Channel.EnableReading | src/Channel.h:36-39 | the descriptor is in the kernel's set with exactly the channel's mask |
| Epoll.Channel.EnableWriting | src/Channel.h:44-47 | the same, and the channel is writing |
| Epoll.Channel.DisableReading | src/Channel.h:40-43 | agreement holds for the reduced mask |
| Epoll.Channel.DisableWriting | src/Channel.h:48-51 | agreement holds, and the channel is not writing |
| Epoll.Channel.DisableAll | src/Channel.h:52-55 | afterwards the kernel has the descriptor exactly if the channel was not registered before |
| Epoll.DisabledTwice | src/EpollPoller.cc:71-77 | a channel disabled twice in a row ends up registered under an empty mask |
| Epoll.Channel.Remove | src/EpollPoller.cc:89-97 | the channel is new again, out of the map and of the kernel's set |
| Epoll.EpollPoller.Ctl | src/EpollPoller.cc:100-116 | the kernel's rules: refused against the wrong membership, otherwise carried out |
| Epoll.EpollPoller.UpdateChannel | src/EpollPoller.cc:67-87 | index kAdded iff in the kernel's set with the channel's mask, kDeleted only with an empty mask, and no call is refused |
| Epoll.EpollPoller.RemoveChannel | src/EpollPoller.cc:89-97 | the agreement survives removal, and no call is refused |
| Epoll.EpollPoller.HasChannel | src/Poller.cc:7-11 | true exactly if the index is not kNew |
| Epoll.EpollPoller.ReportedChannel | src/EpollPoller.cc:54-61 | every registration leads back to a channel in use with that descriptor and that mask |
| Epoll.EpollPoller.FillActiveChannels | src/EpollPoller.cc:54-61 | the active list holds the registered channels of the reported descriptors in order, each with exactly its own events, and no other channel receives any |
| TcpConnections.TcpConnection.ConnectionEstablished | src/TcpConnection.cc:176-182 | connected and reading, invariant kept |
| TcpConnections.TcpConnection.SendInLoop | src/TcpConnection.cc:114-160 | what reaches the socket and what is buffered, in every case; write interest iff bytes wait; a message gets through whole exactly if nothing waits and the socket takes all of it |
| TcpConnections.TcpConnection.Send | src/TcpConnection.cc:104-112 | in the loop thread the same, from another thread a queued call, and nothing unless connected |
| TcpConnections.TcpConnection.Shutdown | src/TcpConnection.cc:162-167 | only a connected connection starts to disconnect |
| TcpConnections.TcpConnection.ShutdownInLoop | src/TcpConnection.cc:168-173 | the write side is closed over buffered bytes exactly if there are some and the connection is disconnected; otherwise only behind the last of them |
| TcpConnections.TcpConnection.HandleWrite | src/TcpConnection.cc:59-80 | exactly the bytes taken leave the buffer in order, and a pending half-close happens exactly when it runs empty |
| TcpConnections.TcpConnection.HandleClose | src/TcpConnection.cc:82-90 | disconnected, and interested in nothing |
| TcpConnections.CallbackSnoc | src/TcpConnection.cc:46-48 | the closed form of a callback grows by one action as send and shutdown do it |
| TcpConnections.TcpConnection.RunCallback | src/TcpConnection.cc:46-48 | exactly what a callback comes to: the taken parts of the replies in front of the first hang-up, up to the first one that is kept, reach the socket in order; that one waits; a hang-up disconnects, and half-closes iff nothing waits |
| TcpConnections.TcpConnection.HandleRead | src/TcpConnection.cc:43-57 | the end of the stream closes, data has exactly the effect of the callback, an error changes nothing |
| TcpConnections.TcpConnection.HandleEvent | src/Channel.cc:43-67 | the exact effect of close, read with callback, and write part in this order; disconnected exactly if it was, hung up, or read its end, and then nothing is written; a half-close leaves nothing to write |
| TcpConnections.ReplyGoesOutAtOnce | src/Channel.cc:55-66 | a reply that has to wait is written by the same dispatch |
| TcpConnections.RunConnection | src/TcpConnection.cc:59-173 | over every series of events and callbacks: what the connection looks like after each, no half-close over buffered bytes of a live connection, and nothing written once it is closed |
| TcpConnections.TraceConserves | src/TcpConnection.cc:59-160 | conservation over every such series: what has gone out, and behind it what waits, are the bytes the events have handed over, in order |
| TcpConnections.EventStates | src/TcpConnection.cc:43-193 | the state after any event: disconnected exactly if it was or the event closes it, disconnecting exactly if it was or a connected one was asked |
| TcpConnections.ShutdownAfterClose | src/TcpConnection.cc:162-173 | a shutdown run after the close does close the write side over buffered bytes |
| TcpServers.NamesDiffer | src/TcpServer.cc:51-54 | different ids give different names, for addresses that fit the 64-byte buffer |
| TcpServers.NameIs | src/TcpServer.cc:51-54 | a name that fits is server, tilde, address, number sign and the id in decimal |
| TcpServers.LongAddressesCollide | src/TcpServer.cc:51-54 | for addresses of 52 characters or more two ids have the same name |
| TcpServers.NamesUniqueExactly | src/TcpServer.cc:51-54 | all ids of a 32-bit counter have different names exactly if the address has at most 51 characters |
| TcpServers.LoadIs | src/EventLoopThreadPool.cc:28-40 | the number of k below a bound with k mod n = j, in closed form |
| TcpServers.Balanced | src/EventLoopThreadPool.cc:28-40 | these numbers differ by at most one between any two j |
| TcpServers.OnLoopIsLoad | src/EventLoopThreadPool.cc:28-40 | the connections on a loop are as many as these numbers say, for distinct loops |
| TcpServers.ServerIsBalanced | src/TcpServer.cc:49-78 | of the connections a server has accepted, each loop has its exact share, and any two loops differ by at most one |
| TcpServers.NameIsNew | src/TcpServer.cc:51-69 | all names ever issued are pairwise distinct, and a new one differs from them and is not in the map |
| TcpServers.AcceptKeepsOrder | src/TcpServer.cc:49-69 | the map equals accepted minus removed after an accept |
| TcpServers.RemoveKeepsOrder | src/TcpServer.cc:84-89 | the map equals accepted minus removed after a removal, also a repeated one |
| TcpServers.TcpServer.GetNextLoop | src/EventLoopThreadPool.cc:28-40 | the k-th call, from zero, returns loop k mod n, or the base loop if there are none |
| TcpServers.TcpServer.NewConnection | src/TcpServer.cc:49-78 | the literal name, never issued before, nothing overwritten, loop k mod n or the base loop, books kept |
| TcpServers.TcpServer.RemoveConnection | src/TcpServer.cc:84-89 | exactly that connection's entry leaves the map |
| Decimal.Injective | src/TcpServer.cc:52-52 | the decimal rendering is injective |
| Decimal.IntWidth | src/TcpServer.cc:51-52 | a non-negative 32-bit int takes at most ten digits |
| Decimal.AtolReads | bck/src/http_conn.cpp:281-283 | atol reads a printed number back |

## Left out

- The two halves of `http_conn` are two classes, `HttpConn` and `HttpResponder`; `init()` appears in both, for the fields of that half.
- `bck/src/http_conn.cpp:93-104` does not reset the fields of a reused object; runs of the parser and of the resumed send start from the state that `init()` establishes, those of the printer from any.
- ParseRequestContent: what a store of the terminator outside the buffer does is not modelled; the contract says exactly when there is one.
- `atol` is over unbounded integers; overflow of `long` is not modelled.
- The Host branch (`bck/src/http_conn.cpp:548`) and `m_host`, whose condition is implementation-defined.
- The Content-Type value (a string printed with `%d`): an arbitrary text, of at most 100 characters where the response has to fit.
- The one-shot model does not tell whether a connection is armed for reading or for writing; the dispatcher may handle any event as either.
- `do_request` and `unmap`: the file is an arbitrary byte sequence, and the complete-request verdict stands for the call.
- Process exit, thread creation, the pool's destructor, null tasks and interrupted `sem_wait`.
- Callbacks of users other than the message callback, `shared_ptr` and `weak_ptr` lifetimes, and the exactly-once teardown that `src/TcpConnection.cc:185-193` does not provide.
- Overflow of the connection counter: `NewConnection` stops before it.
- Poll timeouts are steps in which poll returns without the wakeup channel; time itself, logging and memory-model effects are outside the models.
- Wrappers over system calls: sockets, addresses, timestamps, threads, acceptor, locks.
