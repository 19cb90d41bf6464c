# Let's Talk in Dafny: session protocols and the tinyxml2 core

This project models two parts of the Let's Talk library and proves properties of them.

1. **The session protocols.** The reactor (client and server back ends, session handles and the
   four topics between them), request/reply (requesters, services, and the encoding of failure in
   message ids), and the structures below them: message identifiers, the bounded thread-safe
   queue, and the active object. The protocols are step systems: any number of clients, one server,
   one in-order log per writer and topic, and a position in it for every reader. A run is any
   interleaving of lock bodies, publications and deliveries.
2. **The XML core, tinyxml2.** The in-place decoder for character references, entities and line
   ends; the recursive parser; the stateful printer; the doubly linked child lists; the memory pool.

Objects that the program updates in place are classes (`ReactorServerBackend`, `Session`,
`ReactorClientBackend`, `RequesterImpl`, `ServiceProvider`, `Replier`, `ThreadSafeQueue`,
`ActiveObject`, `XMLPrinter`, `XMLNode`, `MemPool`), buffers are arrays, and loops are loops. Their
methods are proved against functions on values, and the theorems are about those functions.

| file | contents |
|---|---|
| `Guid.dfy` | identifiers, increment, the bad version, the ordering |
| `ReactorServer.dfy`, `ReactorClient.dfy` | the two back ends and the session handle |
| `ReactorSystem.dfy`, `ReactorInvariant.dfy`, `ReactorTheorems.dfy` | the step system, its invariant, what holds in every run |
| `ReactorHistory.dfy`, `ReactorCancels.dfy` | what was told is what arrives: requests, calls, replies, samples, cancels |
| `ReactorOrder.dfy` | runs built step by step, and when the delivery order decides the verdict |
| `RequestReply.dfy`, `RpcSystem.dfy` | requesters and services, and runs of many of them |
| `ThreadSafeQueue.dfy`, `ActiveObject.dfy` | the queue and the worker thread |
| `XmlChars.dfy`, `XmlText.dfy`, `XmlScan.dfy` | bytes, decoding in place, scanning and collapsing |
| `XmlLiterals.dfy` | digits, entities, byte classes and delimiters, told in characters |
| `XmlParser.dfy`, `XmlReader.dfy` | the parser as functions and as loops |
| `XmlProductions.dfy`, `XmlGrammar.dfy`, `XmlErrors.dfy` | tags, attributes and leaves as productions, documents as a grammar, and what is refused with which error |
| `XmlPrinter.dfy`, `XmlValues.dfy`, `XmlRoundTrip.dfy`, `XmlDocument.dfy`, `XmlLoaded.dfy` | the printer, and when printing and parsing undo each other, for values, levels, any document and loaded documents |
| `XmlExamples.dfy` | inputs on the failing side of these conditions |
| `XmlChildren.dfy`, `XmlTree.dfy`, `MemPool.dfy` | child lists, when the nodes stay a tree, and the pool |

`dafny verify dfyconfig.toml` checks the whole project.

## What is taken for granted

- Writer GUIDs are distinct. Each topic is reliable and in order per writer (the "stateful" QoS),
  and nothing orders one topic against another. Ids and related ids arrive as they were sent.
- Each session has one handle on the server, used by one thread at a time. The `Session` class can be
  copied, and every copy would dispose of the session when it is destroyed; copies are not modelled.
- A region under a lock is one step; everything between two such regions is a separate step.
- Message bodies are byte sequences. Whether a progress payload deserializes and whether a server
  or client has been discovered are parameters or free choices. A wait with a condition returns
  what the condition says when it ends.
- In the reactor runs a client starts a session only while its 64-bit counter has not wrapped
  (`Increment` itself is modelled with its wrap past zero); in the request/reply runs each
  requester stays below 2^32 requests. `PromisesAreConserved` and `AnnouncementUnderstood` need
  neither bound.
- The shift and the bitwise or of `makeBadVersion` are modelled on 64-bit words and proved equal to
  swapping the halves; the bit operations of the UTF-8 encoder are written as arithmetic. `isalpha`
  and `isspace` are those of the C locale. A document has its default options: entities are
  processed and white space is preserved.

## Where the code does not do what its documentation or a reader would expect

- A handle that replies and then does something other than being destroyed can leave the client
  with either verdict, depending on the delivery order of marks and replies
  (`VerdictDependsOnOrder`; reply and then fail is the shortest case, `ReplyThenFailIsAmbiguous`).
  `ConvergenceExactlyWhen` gives the condition on the calls.
- A cancel that arrives while the request still waits at the server is lost: the command erases a
  session that does not exist yet, and the server later takes the request and counts the session as
  alive (`EarlyCancelIsLost`). By `CancelReachesServer` only a session started after its cancel arrived
  is still known.
- A service's failure for a request whose id has two equal halves arrives as an empty result
  (`EqualHalvesFailAsResults`); `AnnouncementUnderstood` gives the exact condition.
- `stopWork` is documented to finish pending jobs on the caller's thread. The worker finishes them,
  and if there is no worker to join nothing runs (`SecondStopRunsNothing`, `StopFinishesJobs`).
- `pushAll` equals repeated `push` exactly when the queue is unbounded or within its bound
  (`PushAllIsRepeatedPush`); after a swap it may not be.
- An unknown entity advances the write pointer without writing, so the byte left there is whatever
  the original text shows at that place: `&lt;&b;` becomes `<lb;` (`UnknownReferenceIsGarbled`).
  `InPlaceIsDecode` says exactly when the buffer ends up with the decoded text.
- A character reference whose number exceeds 32 bits is not refused unless the library was compiled
  with its debug assertions: `&#x100000041;` becomes `A` (`WrappedReference`), and so does a decimal
  reference of a one, thirty zeros and 65 (`WrappedDecimalReference`). `ReferenceExactlyWhen` gives
  the exact condition for both bases.
- An end tag directly in the document ends parsing without an error, whatever follows it
  (`StrayEndTag`), and a tag written `</a/>` counts as a sealed element (`SealedEndTag`). Both are in
  the grammar as the code has them.
- The printer checks nothing and escapes only text and attribute values. A comment that holds `-->`, a
  CDATA section that holds `]]>`, an element with an illegal name or with an attribute twice is printed
  as it is and not read back (`UnfitNodes`, `UnfitNodeIsLost`). `RoundTripExactlyWhen` gives the exact
  condition for all documents.
- Plain text at the very end of a document is printed but cannot be read back, and plain text at
  the very start loses its leading white space unless a byte order mark precedes it
  (`RoundTripExactlyWhen`).
- The printer does not escape CR, and the parser skips text that is nothing but white space. So a CR
  or a blank text that references brought into a document is lost when it is printed and loaded again:
  `<a>&#32;</a>` is one (`BlankReferenceIsLost`), `LoadPrintLoad` gives the exact condition.
- Nothing stops a caller from inserting a node below itself. The child lists stay linked, but the
  nodes are then no tree (`NodeBelowItself`, `EditKeepsTree`).
- `InsertAfterChild` follows a null pointer when the node to move is the last child and sits directly
  behind the one it is to follow (`CrashingCalls`, `CrashesExactlyWhen`).
- The grooming loop of the client erases from the map it iterates over. It is modelled as the filter
  it intends.

## Model

| member | source | states |
|---|---|---|
| `Guids.Increment` | src/LetsTalk/Guid.hpp:30-35 | the writer stays, the sequence grows by one below the wrap, and the result is never zero or the unknown id |
| `Guids.SwapHalvesMeaning` | src/LetsTalk/Guid.cpp:7-13 | the shifts and the or on 64-bit words exchange the two 32-bit halves |
| `Guids.BadVersionInvolution` | src/LetsTalk/Guid.cpp:7-19 | taking the bad version twice gives back the id, and being a bad version of each other is symmetric |
| `Guids.BadVersionFixedPoints` | src/LetsTalk/Guid.cpp:7-13 | an id is its own bad version exactly when its halves agree |
| `Guids.BadVersionOfSmall` | src/LetsTalk/Guid.cpp:7-13 | below 2^32 a bad version is never itself below 2^32 |
| `Guids.GuidOrderIsTotal` | src/LetsTalk/Guid.hpp:46-60 | the ordering that keys the maps is a strict total order whose equivalence is equality |
| `ReactorServer.ReactorServerBackend.OnCommand` | src/LetsTalk/ReactorServerImpl.hpp:23-28 | a cancel removes the session and nothing else, pending requests included |
| `ReactorServer.ReactorServerBackend.HavePendingSession` | src/LetsTalk/ReactorServerImpl.hpp:65-69 | true exactly when a request is pending |
| `ReactorServer.ReactorServerBackend.GetPendingSessionData` | src/LetsTalk/ReactorServerImpl.hpp:95-107 | the oldest pending request leaves the queue; the unknown id stands for none and is returned exactly when there is none |
| `ReactorServer.ReactorServerBackend.DoProgress` | src/LetsTalk/ReactorServerImpl.hpp:125-151 | the session map follows the mark and the mark is published whether or not the session is known |
| `ReactorServer.ReactorServerBackend.RecordReply` | src/LetsTalk/ReactorServerImpl.hpp:72-85 | SUCCESS is published and a known session becomes SUCCEED |
| `ReactorServer.ReactorServerBackend.DoReply` | src/LetsTalk/ReactorServerImpl.hpp:88-92 | the reply is recorded first and then published |
| `ReactorServer.ReactorServerBackend.IsAlive` | src/LetsTalk/ReactorServerImpl.hpp:154-164 | true exactly for a known session that is starting or running |
| `ReactorServer.ReactorServerBackend.DisposeOfSession` | src/LetsTalk/ReactorServerImpl.hpp:179-191 | a live session publishes FAILED, and the entry is gone in any case |
| `ReactorServer.Session.Invoke` | src/LetsTalk/ReactorServerImpl.hpp:230-265 | a call on an open handle performs its actions in order, a closed handle does nothing |
| `ReactorServer.Session.Close` | src/LetsTalk/ReactorServerImpl.hpp:277-281 | destruction disposes of the session if the handle is still open |
| `ReactorServer.PresentByHistory` | src/LetsTalk/ReactorServerImpl.hpp:125-143 | for every event sequence a session is in the map exactly when a START has no later removal |
| `ReactorServer.LivenessByHistory` | src/LetsTalk/ReactorServerImpl.hpp:153-164 | alive exactly when a START stands and the latest deciding event is a mark in 1..99 |
| `ReactorServer.OnlyStartRevives` | src/LetsTalk/ReactorServerImpl.hpp:129-142 | once removed, a session comes back only through a new START for its id |
| `ReactorClient.ReactorClientBackend.StartNewSession` | src/LetsTalk/ReactorClientImpl.hpp:12-24 | a fresh id is registered and the request is published under it |
| `ReactorClient.ReactorClientBackend.DoRequest` | src/LetsTalk/ReactorClientImpl.hpp:26-32 | grooming comes first, then a new session |
| `ReactorClient.ReactorClientBackend.HandleProgress` | src/LetsTalk/ReactorClientImpl.hpp:39-71 | a known session takes the mark, and the payload if there is one that deserializes; an unknown one is ignored |
| `ReactorClient.ReactorClientBackend.HandleReply` | src/LetsTalk/ReactorClientImpl.hpp:76-87 | a known session gets SUCCESS and the reply; an unknown one is ignored |
| `ReactorClient.ReactorClientBackend.Get` | src/LetsTalk/ReactorClientImpl.hpp:100-112 | true exactly when the reply is ready; the value is moved out |
| `ReactorClient.ReactorClientBackend.DoCancel` | src/LetsTalk/ReactorClientImpl.hpp:128-139 | the entry goes first, then the cancel is published |
| `ReactorClient.ReactorClientBackend.Alive` | src/LetsTalk/ReactorClientImpl.hpp:141-152 | true exactly when the server is found and the mark is in 0..99 |
| `ReactorClient.ReactorClientBackend.GroomSessionList` | src/LetsTalk/ReactorClientImpl.hpp:154-168 | without a server everything goes, with one exactly the sessions in progress stay |
| `ReactorClient.ReactorClientBackend.ProgressData` | src/LetsTalk/ReactorClientImpl.hpp:178-191 | an entry with the lowest mark is taken from the queue; nothing changes exactly when the session is unknown or its queue empty |
| `ReactorClient.ReactorClientBackend.LowestEntry` | src/LetsTalk/ReactorClientImpl.hpp:222-230 | the top of the priority queue is an entry no other undercuts |
| `ReactorClient.ReactorClientBackend.DisposeOfSession` | src/LetsTalk/ReactorClientImpl.hpp:195-211 | an unfinished or just finished session is cancelled at the server, the entry goes, and the list is groomed |
| `ReactorClient.GroomingIsInvisible` | src/LetsTalk/ReactorClientImpl.hpp:141-168 | grooming keeps exactly the sessions that isAlive reports, as they are, and so changes isAlive for no id, found server or lost; grooming twice is grooming once |
| `ReactorInvariant.StepKeeps` | src/LetsTalk/ReactorServerImpl.hpp:72-191 | every step of every participant keeps the system invariant |
| `ReactorInvariant.ReachableInv` | src/LetsTalk/ReactorClientImpl.hpp:12-211 | the invariant holds in every reachable state, for any number of clients and sessions |
| `ReactorTheorems.SettledMark` | src/LetsTalk/ReactorClientImpl.hpp:39-87 | a drained client that knows a session holds its last published mark, or SUCCESS if a reply was published |
| `ReactorTheorems.EndedSession` | src/LetsTalk/ReactorServerImpl.hpp:72-191 | the last mark of an ended, uncancelled session is SUCCESS if the last call before destruction was a reply and FAILED otherwise, a reply is published exactly when there was one, and the server calls the session dead |
| `ReactorTheorems.ReactorConvergence` | src/LetsTalk/ReactorServerImpl.hpp:72-191 | once drained, if the calls have no reply or end in one, the client has dropped the session or holds exactly SUCCESS if replied and FAILED if not; neither side calls it alive |
| `ReactorOrder.VerdictDependsOnOrder` | src/LetsTalk/ReactorClientImpl.hpp:39-87 | for all other calls there are two reachable, drained states with the same server, one where the client holds SUCCESS and one where it holds FAILED |
| `ReactorOrder.ConvergenceExactlyWhen` | src/LetsTalk/ReactorServerImpl.hpp:72-191 | for all calls that end the session, every reachable drained state with these calls settles if and only if they have no reply or end in one, destruction aside |
| `ReactorOrder.ReplyThenFailIsAmbiguous` | src/LetsTalk/ReactorServerImpl.hpp:230-265 | reply followed by fail reaches both verdicts |
| `ReactorTheorems.TerminalMarkIsUnique` | src/LetsTalk/ReactorServerImpl.hpp:72-92 | at every moment of every run at most one terminal mark is published for a session with one final call, and it is the last |
| `ReactorTheorems.TerminalMarkIsPublished` | src/LetsTalk/ReactorServerImpl.hpp:258-281 | when such a session has ended uncancelled, exactly one was published |
| `ReactorTheorems.NoCrossDelivery` | src/LetsTalk/ReactorClientImpl.hpp:76-87 | a stored reply or progress sample is one the handle of that very id was told to send, and this client issued the id |
| `ReactorTheorems.RequestsServedOnceInOrder` | src/LetsTalk/ReactorServerImpl.hpp:166-175 | arrived requests are those handed out followed by the pending ones, no id twice, each client's in order, and the next one never looks like none |
| `ReactorHistory.RequestsArriveAsMade` | src/LetsTalk/ReactorClientImpl.hpp:12-24 | in every run, what a client publishes under its n-th id, and what arrives, waits and is handed out under it at the server, is the n-th request it was given, and no request is lost |
| `ReactorHistory.PublishedAsTold` | src/LetsTalk/ReactorServerImpl.hpp:72-151 | in every run, when the calls on a handle have been performed, the marks and samples published are the start, those the calls asked for, and FAILED if destroyed alive; the replies are those of the calls |
| `ReactorHistory.StoredReplyExactlyWhen` | src/LetsTalk/ReactorClientImpl.hpp:76-112 | at every moment of every run a client that knows a session holds a reply if and only if one was delivered since the last get, and then the last delivered |
| `ReactorHistory.ReplyReachesCaller` | src/LetsTalk/ReactorClientImpl.hpp:76-112 | once all is performed and delivered, a client that has not fetched the reply holds exactly the body the handle was last told to reply with |
| `ReactorHistory.SamplesAreConserved` | src/LetsTalk/ReactorClientImpl.hpp:39-71 | at every moment of every run the samples held and those handed out are together exactly those delivered that deserialized |
| `ReactorHistory.NewSessionIsAlive` | src/LetsTalk/ReactorClientImpl.hpp:12-24 | a session is alive at its client from the moment it is started, under an id that was not in use |
| `ReactorHistory.AliveWhileRunning` | src/LetsTalk/ReactorClientImpl.hpp:141-152 | with everything delivered and no reply, a known session is alive if and only if its last published mark is in 0..99 |
| `ReactorTheorems.RemovalIsPermanent` | src/LetsTalk/ReactorClientImpl.hpp:128-139 | an id a client has dropped never reappears, whatever follows |
| `ReactorTheorems.CancelIsPermanent` | src/LetsTalk/ReactorClientImpl.hpp:128-152 | after a cancel the id is never alive again at that client |
| `ReactorCancels.CancelSentExactlyWhen` | src/LetsTalk/ReactorClientImpl.hpp:128-139 | at every moment of every run a cancel is published or about to be if and only if the session was cancelled, or disposed of with a mark in 0..100 |
| `ReactorCancels.CancelReachesServer` | src/LetsTalk/ReactorServerImpl.hpp:23-28 | once the commands have arrived, the server has heard of the cancel and knows the session only if it was started after that |
| `ReactorCancels.EarlyCancelIsLost` | src/LetsTalk/ReactorServerImpl.hpp:23-38 | a reachable state in which every command has arrived and the cancelled session is alive at the server |
| `ReactorTheorems.ServerLivenessInRuns` | src/LetsTalk/ReactorServerImpl.hpp:153-164 | in every reachable state the server's isAlive is the history predicate |
| `RequestReply.RequesterImpl.DoRequest` | src/LetsTalk/RequestReplyImpl.hpp:101-115 | a new promise under the next id and a published request, or the exception of a future taken twice |
| `RequestReply.RequesterImpl.HandleReply` | src/LetsTalk/RequestReplyImpl.hpp:147-166 | the pending id is fulfilled, else the swapped pending id fails, else nothing changes |
| `RequestReply.ServiceProvider.OnDataAvailable` | src/LetsTalk/RequestReplyImpl.hpp:47-56 | every valid sample becomes one job, in order |
| `RequestReply.ValidRequestsExactly` | src/LetsTalk/RequestReplyImpl.hpp:47-56 | every sample with data yields its own request, at the place given by those before it, and there are no others |
| `RequestReply.ServiceProvider.RunJob` | src/LetsTalk/RequestReplyImpl.hpp:56-67 | the oldest job announces what the callback made of its own request |
| `RequestReply.Replier.GetPendingSession` | src/LetsTalk/RequestReplyImpl.hpp:262-267 | a live session for the oldest request, or one that is not alive |
| `RequestReply.ReplierSession.SendReply` | src/LetsTalk/RequestReplyImpl.hpp:276-281 | the result is announced and the session ends |
| `RequestReply.ReplierSession.Fail` | src/LetsTalk/RequestReplyImpl.hpp:290-295 | the failure is announced under the bad version and the session ends |
| `RequestReply.AnnouncementUnderstood` | src/LetsTalk/Participant.cpp:324-338 | for every requester state, the exact condition under which an announced outcome resolves its own id and no other |
| `RequestReply.SmallIdsAreUnambiguous` | src/LetsTalk/RequestReplyImpl.hpp:147-166 | below 2^32 an announcement resolves its id alone, value if good and exception if bad, and changes nothing for an id that is not pending |
| `RequestReply.EqualHalvesFailAsResults` | src/LetsTalk/Guid.cpp:7-13 | an id for which a failure arrives as a result |
| `RequestReply.PromisesSplit` | src/LetsTalk/RequestReplyImpl.hpp:101-166 | fulfilled, failed and pending promises are disjoint and make up all that were handed out |
| `RequestReply.PromisesAreConserved` | src/LetsTalk/RequestReplyImpl.hpp:101-166 | over every sequence of calls and replies, impostors included, the split holds and no promise is ever set twice |
| `RpcSystem.StepKeeps` | src/LetsTalk/RequestReplyImpl.hpp:47-166 | every step of requesters and service keeps the system invariant |
| `RpcSystem.FutureHoldsOwnOutcome` | src/LetsTalk/RequestReplyImpl.hpp:47-70 | in every reachable state a future holds a result or an exception exactly when the service produced it on that very request and the reply has been read |
| `RpcSystem.CallersGetTheirOutcome` | src/LetsTalk/RequestReplyImpl.hpp:47-166 | in every run the future of the n-th request given to a requester holds an outcome exactly when the service made it of the request under that number and the reply has been read |
| `RpcSystem.DrainedMeansResolved` | src/LetsTalk/RequestReplyImpl.hpp:101-166 | once everything is drained every future is resolved |
| `RpcSystem.AnsweredOnce` | src/LetsTalk/RequestReplyImpl.hpp:47-70 | no request is answered twice, and none that nobody made |
| `Queues.ThreadSafeQueue.Pop` | src/LetsTalk/ThreadSafeQueue.hpp:61-70 | the front item leaves, or nothing if the queue is empty |
| `Queues.ThreadSafeQueue.PopAll` | src/LetsTalk/ThreadSafeQueue.hpp:98-104 | everything leaves at once |
| `Queues.ThreadSafeQueue.PushBack` | src/LetsTalk/ThreadSafeQueue.hpp:124-132 | one item joins and at most one is discarded |
| `Queues.ThreadSafeQueue.PushBackAll` | src/LetsTalk/ThreadSafeQueue.hpp:147-156 | all items join and the oldest go until the bound holds |
| `Queues.ThreadSafeQueue.Emplace` | src/LetsTalk/ThreadSafeQueue.hpp:161-170 | one item joins and the bound is restored |
| `Queues.QueueRefinesLog` | src/LetsTalk/ThreadSafeQueue.hpp:61-170 | in every run the items pushed are those that left followed by those inside, pops come in push order, and the bound holds |
| `Queues.DiscardsOnlyWhenFull` | src/LetsTalk/ThreadSafeQueue.hpp:124-170 | an item is discarded exactly when the bound would be exceeded, and then the queue is exactly full |
| `Queues.PushAllIsRepeatedPush` | src/LetsTalk/ThreadSafeQueue.hpp:147-156 | pushAll equals repeated push if and only if the queue is unbounded or within its bound |
| `Queues.PushAll` | src/LetsTalk/ThreadSafeQueue.hpp:147-170 | pushAll and emplace restore the bound, whatever they found |
| `Queues.PushEachKeepsSize` | src/LetsTalk/ThreadSafeQueue.hpp:124-132 | beyond its bound a queue does not grow by pushing |
| `Queues.SwappedQueuesStayBounded` | src/LetsTalk/ThreadSafeQueue.hpp:175-181 | whatever two bounded queues do, swaps included, neither exceeds the larger bound |
| `ActiveObjects.ActiveObject.Poll` | src/LetsTalk/ActiveObject.cpp:14-23 | a round of the loop runs at most the front job, as the worker's steps between taking and releasing the lock do |
| `ActiveObjects.ActiveObject.Drain` | src/LetsTalk/ActiveObject.cpp:25-30 | the drain runs the whole queue in order, as the worker's steps until its end do |
| `ActiveObjects.JobsRunInOrder` | src/LetsTalk/ActiveObject.cpp:8-32 | in every run, the jobs its steps submitted are the executed ones followed by the queue whenever the lock is free, across any starts and stops |
| `ActiveObjects.JobsRunWithin` | src/LetsTalk/ActiveObject.cpp:12-23 | from every reachable state, while the object is not stopped, every job submitted so far has run after at most three worker steps for it and for each job ahead of it |
| `ActiveObjects.WorkerCanGoOn` | src/LetsTalk/ActiveObject.cpp:12-23 | while the object is alive the worker always has a step to make |
| `ActiveObjects.StartResumes` | src/LetsTalk/ActiveObject.cpp:8-12 | startWork brings a stopped object back to work, with the jobs it still has |
| `ActiveObjects.ThreadsDoNotOverlap` | src/LetsTalk/ActiveObject.cpp:8-38 | a thread is started only where none is left to join |
| `ActiveObjects.StopFinishesJobs` | src/LetsTalk/ActiveObject.cpp:34-38 | every job submitted before stopWork has run once when it returns, if and only if there was a thread to join or nothing was waiting |
| `ActiveObjects.SecondStopRunsNothing` | src/LetsTalk/ActiveObject.cpp:34-38 | a run in which a second stop leaves a job in the queue |
| `ActiveObjects.StopTerminates` | src/LetsTalk/ActiveObject.cpp:12-38 | while stopWork waits the worker can always go on or be joined, each of its steps decreases a well-founded measure, and jobs submitted meanwhile leave the measure as it is |
| `XmlChars.FindEntity` | external/tinyxml2/tinyxml2.cpp:148-154 | an entity of the table that the text names, or there is none |
| `XmlLiterals.PredefinedIsDecoded` | external/tinyxml2/tinyxml2.cpp:148-154 | each of the five predefined entities of XML 1.0 section 4.6 is decoded to its character |
| `XmlLiterals.NothingElseIsDecoded` | external/tinyxml2/tinyxml2.cpp:344-366 | an ampersand that begins none of them and no character reference is skipped |
| `XmlLiterals.ByteClasses` | external/tinyxml2/tinyxml2.h:567-589 | white space and the characters of names |
| `XmlLiterals.Delimiters` | external/tinyxml2/tinyxml2.cpp:728-732 | the delimiters of markup as texts, and the byte order mark as the encoding of U+FEFF |
| `XmlChars.Utf8RoundTrip` | external/tinyxml2/tinyxml2.cpp:422-472 | decoding by RFC 3629 section 3 gives back every code point that was encoded |
| `XmlChars.CharacterRef` | external/tinyxml2/tinyxml2.cpp:475-568 | a numeric reference never writes more bytes than it reads |
| `XmlChars.CharacterRefMeaning` | external/tinyxml2/tinyxml2.cpp:475-568 | a number that fits 32 bits, written with any number of digits, stands for its encoding and consumes exactly its own text |
| `XmlLiterals.DigitsAre` | external/tinyxml2/tinyxml2.cpp:504-549 | the digits are 0 to 9 and, in hexadecimal, the letters A to F of either case with their usual values, and no other byte |
| `XmlLiterals.NumeralReference` | external/tinyxml2/tinyxml2.cpp:475-568 | for every number below 2^32, the reference that holds its numeral, decimal or hexadecimal in either case, stands for its UTF-8 encoding |
| `XmlChars.ReferenceSums` | external/tinyxml2/tinyxml2.cpp:490-560 | for every digit string the reference consumes its own text and stands for the encoding of the sum of its digits, each scaled by the 32-bit multiplier |
| `XmlChars.ReferenceExactlyWhen` | external/tinyxml2/tinyxml2.cpp:475-568 | in both bases and for any number of digits, the reference stands for its number if and only if that fits 32 bits or neither it nor the sum has an encoding |
| `XmlChars.SumIsCongruent` | external/tinyxml2/tinyxml2.cpp:490-560 | in both bases the sum differs from the number by a multiple of 2^32 |
| `XmlChars.HexReferenceWraps` | external/tinyxml2/tinyxml2.cpp:490-530 | a hexadecimal reference of any length stands for its number modulo 2^32, and so for its number if and only if that fits 32 bits or neither has an encoding |
| `XmlChars.WrappedReference` | external/tinyxml2/tinyxml2.cpp:490-530 | a number beyond 32 bits that stands for the letter A |
| `XmlChars.WrappedDecimalReference` | external/tinyxml2/tinyxml2.cpp:532-560 | a decimal number of 33 digits that stands for the letter A |
| `XmlText.GetCharacterRef` | external/tinyxml2/tinyxml2.cpp:475-568 | the loops on the buffer compute the reference |
| `XmlText.SumDigits` | external/tinyxml2/tinyxml2.cpp:497-560 | the backward digit loop with its 32-bit multiplier |
| `XmlText.LookUpEntity` | external/tinyxml2/tinyxml2.cpp:344-357 | the entity loop finds the first match |
| `XmlText.DecodeOne` | external/tinyxml2/tinyxml2.cpp:299-374 | one turn reads and writes exactly the next piece of the text |
| `XmlText.DecodeInPlace` | external/tinyxml2/tinyxml2.cpp:286-384 | the loop leaves the result of writing the pieces over their own text, terminated, with the write pointer never ahead and nothing outside touched |
| `XmlText.InPlaceIsDecode` | external/tinyxml2/tinyxml2.cpp:286-384 | the buffer ends with the left-to-right decode if and only if every skipped write falls on an ampersand |
| `XmlText.RecognisedDecodesFaithfully` | external/tinyxml2/tinyxml2.cpp:318-366 | where every ampersand begins a recognised reference, the result is the left-to-right decode |
| `XmlText.UnknownReferenceIsGarbled` | external/tinyxml2/tinyxml2.cpp:360-364 | a text for which it is not |
| `XmlScan.SkipWs` | external/tinyxml2/tinyxml2.h:551-571 | what remains is the rest of the text from the first byte that is not white space |
| `XmlScan.SkipWhiteSpace` | external/tinyxml2/tinyxml2.h:551-562 | the loop stops at the first byte that is not white space |
| `XmlScan.ScanName` | external/tinyxml2/tinyxml2.cpp:237-254 | the loop stops where the name ends |
| `XmlScan.ScanText` | external/tinyxml2/tinyxml2.cpp:212-234 | the loop stops at the end tag, or finds none |
| `XmlScan.ParseTextFindsFirst` | external/tinyxml2/tinyxml2.cpp:212-234 | text that ends where the tag first starts is returned whole |
| `XmlScan.ParseTextIsFirst` | external/tinyxml2/tinyxml2.cpp:212-234 | no earlier occurrence of the tag was skipped |
| `XmlScan.CollapseWhitespace` | external/tinyxml2/tinyxml2.cpp:257-283 | the in-place loop leaves the collapsed text, terminated, and touches nothing else |
| `XmlScan.CollapseNormalises` | external/tinyxml2/tinyxml2.cpp:257-283 | no leading, trailing, doubled or unusual white space, every other byte kept in order, and the second time changes nothing |
| `XmlScan.CollapseJoinsWords` | external/tinyxml2/tinyxml2.cpp:257-283 | the result is the words of the text with exactly one space between any two |
| `XmlReader.FindAttribute` | external/tinyxml2/tinyxml2.cpp:1629-1637 | found exactly when an attribute has that name |
| `XmlProductions.AttributeExactlyWhen` | external/tinyxml2/tinyxml2.cpp:1455-1480 | an attribute is read if and only if a legal name, an equals sign with any white space around it, and a value between two equal quotes of either kind are there, the value free of that quote |
| `XmlProductions.AttributesExactlyWhen` | external/tinyxml2/tinyxml2.cpp:1972-2028 | the attributes of a tag are read if and only if they are there, white space optional before each, no name twice, up to `>` or `/>` |
| `XmlProductions.TagExactlyWhen` | external/tinyxml2/tinyxml2.cpp:2088-2107 | a tag is read if and only if a legal name behind the bracket and an optional slash is there, with its attributes and the end of the tag |
| `XmlProductions.LeafExactlyWhen` | external/tinyxml2/tinyxml2.cpp:1246-1416 | text, CDATA, comment, declaration and unknown nodes are read if and only if their delimiters are there, the first end delimiter counting |
| `XmlReader.ReadAttributes` | external/tinyxml2/tinyxml2.cpp:1972-2028 | the loop computes the attributes, duplicates refused, each round consuming text |
| `XmlReader.ReadTag` | external/tinyxml2/tinyxml2.cpp:2088-2107 | one tag, with how it closes |
| `XmlReader.ReadElement` | external/tinyxml2/tinyxml2.cpp:2088-2113 | a tag alone, or with the level behind it, or the depth error; on every input the depth stays below the limit, which the type of the parameter demands of every recursive call |
| `XmlReader.ReadLevel` | external/tinyxml2/tinyxml2.cpp:1085-1199 | the loop over children computes the level, each round stopping or consuming text, on every input at a depth below the limit |
| `XmlReader.ReadDocument` | external/tinyxml2/tinyxml2.cpp:2562-2576 | the document, or the error |
| `XmlGrammar.LevelIsRead` | external/tinyxml2/tinyxml2.cpp:1085-1199 | whatever a level links is in the grammar |
| `XmlGrammar.ReadNodesAreLinked` | external/tinyxml2/tinyxml2.cpp:1085-1199 | whatever is in the grammar a level links |
| `XmlGrammar.ParserIsGrammar` | external/tinyxml2/tinyxml2.cpp:1085-1199 | for every input the parser returns a document if and only if the grammar, whose tags and leaves are those productions, reads the input as it, every open element closed by a tag of its own name |
| `XmlErrors.ErrorExactlyWhen` | external/tinyxml2/tinyxml2.cpp:1085-1199 | for every input and every error, parsing fails with that error if and only if the input is empty, or nodes of the grammar are followed by a fault of that kind |
| `XmlErrors.LeafFaultExactlyWhen` | external/tinyxml2/tinyxml2.cpp:1246-1416 | a leaf fails, with the error of its kind, if and only if its end is missing |
| `XmlErrors.AttributesFaultExactlyWhen` | external/tinyxml2/tinyxml2.cpp:1972-2028 | a tag fails in its attributes if and only if, behind good ones, an attribute is malformed or repeated, or neither an attribute nor the end of the tag follows |
| `XmlErrors.TagFaultExactlyWhen` | external/tinyxml2/tinyxml2.cpp:2088-2107 | a tag fails if and only if it has no legal name or its attributes fail |
| `XmlGrammar.ParsedIsShallow` | external/tinyxml2/tinyxml2.cpp:2578-2590 | no parsed document reaches the depth limit |
| `XmlErrors.TooDeepExactlyWhen` | external/tinyxml2/tinyxml2.cpp:2578-2590 | for every input, parsing fails with the depth error if and only if start tags are nested in it down to the limit, any nodes of the grammar before each of them and something behind the last |
| `XmlExamples.NestedTagsAreRefused` | external/tinyxml2/tinyxml2.cpp:2578-2590 | start tags directly one inside the other down to the limit are such an input, whatever comes behind |
| `XmlPrinter.XMLPrinter.PrintString` | external/tinyxml2/tinyxml2.cpp:2676-2728 | the run-wise loop prints every byte, or its entity |
| `XmlLiterals.PredefinedIsPrinted` | external/tinyxml2/tinyxml2.cpp:2676-2728 | the printer writes the predefined entities for `<`, `>` and `&`, in attribute values for both quotes, and every other byte as it is |
| `XmlLiterals.PrintedAttribute` | external/tinyxml2/tinyxml2.cpp:2773-2781 | an attribute is printed in double quotes |
| `XmlLiterals.PrintedElement` | external/tinyxml2/tinyxml2.cpp:2760-2857 | an element is printed sealed if it is empty, and else between its tags |
| `XmlLiterals.PrintedLeaf` | external/tinyxml2/tinyxml2.cpp:2870-2969 | the other nodes are printed between their delimiters |
| `XmlPrinter.XMLPrinter.SealElementIfJustOpened` | external/tinyxml2/tinyxml2.cpp:2860-2867 | the owed bracket is paid once |
| `XmlPrinter.XMLPrinter.OpenElement` | external/tinyxml2/tinyxml2.cpp:2760-2770 | the name is written and pushed, and a bracket is owed |
| `XmlPrinter.XMLPrinter.PushAttribute` | external/tinyxml2/tinyxml2.cpp:2773-2781 | name and escaped value inside the open tag |
| `XmlPrinter.XMLPrinter.CloseElement` | external/tinyxml2/tinyxml2.cpp:2832-2857 | the top of the stack is closed, sealed if nothing came between |
| `XmlPrinter.XMLPrinter.PushText` | external/tinyxml2/tinyxml2.cpp:2870-2883 | text escaped, or a CDATA section |
| `XmlPrinter.XMLPrinter.PushMarkup` | external/tinyxml2/tinyxml2.cpp:2942-2969 | comments, declarations and unknowns between their delimiters |
| `XmlPrinter.XMLPrinter.Accept` | external/tinyxml2/tinyxml2.cpp:2156-2170 | visiting a node prints it and leaves the printer as balanced as it was |
| `XmlPrinter.XMLPrinter.Print` | external/tinyxml2/tinyxml2.cpp:2972-3030 | visiting a document prints its mark and its children |
| `XmlValues.EscapeRoundTrip` | external/tinyxml2/tinyxml2.cpp:2676-2728 | for every string without NUL, printed and delimited, in text or attribute, scanning stops at that delimiter and decoding gives the string with its line ends normalised, and so the string itself if and only if it has no CR |
| `XmlValues.RawValue` | external/tinyxml2/tinyxml2.cpp:299-317 | a value that is not entity-processed changes in its line ends only |
| `XmlRoundTrip.AttributesRoundTrip` | external/tinyxml2/tinyxml2.cpp:1972-2028 | printed attributes read back in order, line ends normalised |
| `XmlRoundTrip.LeafRoundTrip` | external/tinyxml2/tinyxml2.cpp:1246-1416 | a printed leaf is recognised and cut out whole |
| `XmlRoundTrip.LevelRoundTrip` | external/tinyxml2/tinyxml2.cpp:1085-1199 | printed nodes, nested to any depth below the limit, are linked again in their normal form (line ends normalised, blank texts gone), and the level goes on behind them |
| `XmlLoaded.RoundTripExactlyWhen` | external/tinyxml2/tinyxml2.cpp:2562-2576 | for every document, parsing its compact print gives it back if and only if its nodes can be written down (legal and unique names, no NUL, no terminators inside, no adjacent plain texts, declarations first), it is not empty, stays below the depth limit, does not end in plain text, keeps its start, and has no CR in text or attribute values and no blank text |
| `XmlLoaded.PrintThenRead` | external/tinyxml2/tinyxml2.cpp:2972-3030 | the printer object followed by the parser loops returns the document exactly under that condition |
| `XmlLoaded.LoadedIsWellFormed` | external/tinyxml2/tinyxml2.cpp:1085-1199 | the nodes of every parsed document can be written down: legal and unique names, no terminators inside, no adjacent texts |
| `XmlLoaded.LoadPrintLoad` | external/tinyxml2/tinyxml2.cpp:2562-2576 | for every input that parses, loading, printing and loading again gives the same document if and only if it is not empty, does not end in plain text, keeps its start, and references have brought in no CR and no blank text |
| `XmlExamples.BlankReferenceIsLost` | external/tinyxml2/tinyxml2.cpp:2676-2728 | a loaded document that printing and loading changes |
| `XmlExamples.UnfitNodeIsLost` | external/tinyxml2/tinyxml2.cpp:2870-2969 | a document of one node that cannot be written down does not come back, whatever the node |
| `XmlExamples.UnfitNodes` | external/tinyxml2/tinyxml2.cpp:2870-2969 | four such nodes: terminators inside a comment and a CDATA section, a space in a name, an attribute twice |
| `XmlExamples.StrayEndTag` | external/tinyxml2/tinyxml2.cpp:1160-1172 | an end tag that closes nothing ends the document, and the text before it is not read back when printed |
| `XmlExamples.SealedEndTag` | external/tinyxml2/tinyxml2.cpp:2088-2107 | a tag that begins with a slash and ends with one is an element |
| `XmlChildren.XMLNode.Unlink` | external/tinyxml2/tinyxml2.cpp:901-922 | the assignments unlink the child and keep every list linked |
| `XmlChildren.XMLNode.InsertChildPreamble` | external/tinyxml2/tinyxml2.cpp:1216-1228 | a node that has a parent leaves its list |
| `XmlChildren.XMLNode.InsertEndChild` | external/tinyxml2/tinyxml2.cpp:938-965 | the node becomes the last child, or is refused |
| `XmlChildren.XMLNode.InsertFirstChild` | external/tinyxml2/tinyxml2.cpp:968-996 | the node becomes the first child, or is refused |
| `XmlChildren.XMLNode.InsertAfterChild` | external/tinyxml2/tinyxml2.cpp:999-1032 | the node follows the given child, or is refused, or the null pointer is followed |
| `XmlChildren.XMLNode.Forward` | external/tinyxml2/tinyxml2.cpp:795-807 | following the next links meets the children in order |
| `XmlChildren.XMLNode.Backward` | external/tinyxml2/tinyxml2.cpp:1049-1058 | following the prev links meets them in reverse |
| `XmlChildren.XMLNode.UnlinkChildren` | external/tinyxml2/tinyxml2.cpp:891-898 | the loop leaves no child and disturbs no other list |
| `XmlChildren.UnlinkKeeps` | external/tinyxml2/tinyxml2.cpp:901-922 | unlinking removes the node from its list, leaves the others, and all stay linked both ways |
| `XmlChildren.InsertKeeps` | external/tinyxml2/tinyxml2.cpp:938-1032 | insertion at any position keeps every list linked both ways |
| `XmlChildren.CrashesExactlyWhen` | external/tinyxml2/tinyxml2.cpp:1021-1029 | the null pointer is followed if and only if the moved node is last and directly behind the given one |
| `XmlChildren.CrashingWeb` | external/tinyxml2/tinyxml2.cpp:1021-1029 | three linked nodes for which it is followed |
| `XmlChildren.CrashingCalls` | external/tinyxml2/tinyxml2.cpp:999-1032 | three calls on new nodes that end so |
| `XmlChildren.EditRefines` | external/tinyxml2/tinyxml2.cpp:901-1032 | an edit does to the linked lists what it does to plain sequences |
| `XmlChildren.RunRefinesSequences` | external/tinyxml2/tinyxml2.cpp:901-1032 | so does every run of insertions, moves and removals |
| `XmlTree.EditKeepsTree` | external/tinyxml2/tinyxml2.cpp:938-1032 | an edit leaves a tree a tree if and only if it does not put a node below itself |
| `XmlTree.NodeBelowItself` | external/tinyxml2/tinyxml2.cpp:938-965 | a node put below its own child: every list stays linked and the tree is lost |
| `MemPools.MemPool.AddBlock` | external/tinyxml2/tinyxml2.h:373-384 | the loop chains the items of a new block |
| `MemPools.MemPool.Allocate` | external/tinyxml2/tinyxml2.h:372-396 | an item nobody holds is handed out and counted |
| `MemPools.MemPool.Release` | external/tinyxml2/tinyxml2.h:398-409 | an item returns to the chain; the null pointer is ignored |
| `MemPools.MemPool.Clear` | external/tinyxml2/tinyxml2.h:352-363 | everything is reset |
| `MemPools.PoolIntegrity` | external/tinyxml2/tinyxml2.h:372-409 | in every run, whatever callers write into what they hold, free chain and live items split all blocks and the counter is the number of live items |

## Left out

- FastDDS entities, QoS lookup, topics, listeners and logging, and the templates in `meta.hpp`.
- CDR serialization and key hashing: message bodies are byte sequences here.
- The wait set, and condition-variable timing: a wait either finds its condition or does not.
- `pruneDeadSessions`, which nothing in the repository calls.
- Races on memory that no lock guards; startWork and stopWork are called by one owner at a time.
- File input and output, number conversion, pretty-print spacing, line numbers and error strings of tinyxml2, and its handle wrappers.
- The parser with entity processing switched off, and with white space collapsed or pedantic; the collapsing itself is modelled.
- Deep clones and the tracking of unlinked nodes by the document.
- ReactorOrder.ConvergenceExactlyWhen: speaks of progress calls with marks in 1..99; marks below 1 and from 100 on, which a caller could also pass to `progress`, are covered by `SettledMark` only.
- MemPools.PoolIntegrity: says nothing of `_maxAllocs`, `_nAllocs` and `_nUntracked`, which the class updates as the code does.
