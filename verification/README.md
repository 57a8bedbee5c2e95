# Tiny-IM: a verified model

Tiny-IM is a small chat system: a browser client (`front/script.js`), and a C++ server with
asynchronous WebSocket sessions (`src/Session.cpp`, `src/Server.cpp`), an SQLite store behind a connection pool (`src/Database.cpp`) and an
asynchronous logger (`inc/Log.h`). This project models the parts that keep state and proves what they
keep over every run. `dafny verify dfyconfig.toml` checks it.

Each stateful part comes twice. A *model* module says what a state is, what one event does (`Next`,
`Step`, `Apply`) and what a whole run or history leads to; the theorems are about it. A *class* has the
source's fields and methods, with its loops and in-place updates, and every method is proved to be a step
of the model, under a `Valid()` that ties caches, queues and tables to ghost histories.

| files | part | what is proved |
|---|---|---|
| `StableSort` | `Array.prototype.sort` | insertion sort on an array is the one stable sort; sorting early changes nothing |
| `ChatModel`, `ChatClient` | caches and views | the double-filed index and the in-place sorted room agree with plain logs |
| `ChatViews` | what is shown | the room in order of time, a conversation in order of id, the live bubbles and blank texts, said of messages alone |
| `ChatScreen` | live path against reopening | exactly which steps, and which runs, keep the screen equal to the reopened view |
| `SessionModel`, `Session` | one WebSocket session | FIFO conservation, one writer, one reader, draining, exactly when a queue stalls and a session can still be stopped |
| `ServerModel` | all sessions | membership of `sessions_`, independence of sessions, exactly which members leak and whose end is reported |
| `FriendsTable` | `friends` and its queries | the table is a function of its history; symmetry; when `getFriendPair` is right |
| `OfflineMail` | `offline_messages` | one flat table behaves like a mailbox per user |
| `ConnectionPool` | the pool | a rotation of the survivors; no connection shared; stuck exactly when all are lost |
| `Credentials` | `users`, hashes | login succeeds exactly for the first registration's password |
| `Database` | the class `Database` | every operation, with prepare, step and mid-query failures, against the four table models |
| `LoggerModel`, `Logger` | logger threads | conservation over all interleavings; exactly what `stop` loses |
| `LogFormat` | `{}` formatting | formatting is splitting once and filling the gaps |

## Where the code does less than it promises

Several laws one would expect are false of the code. The model keeps the code as it is, gives a concrete
failing input, and states exactly when the law holds.

* **Screen against caches.** The live path replaces a missing or empty sender name by a default, the caches
  do not; an echo of one's own message is cached but not shown live (and the history that the client pulls after
  login, `front/script.js:206-208`, includes own messages, `src/Database.cpp:309`). `ChatScreen.StepExact` gives the
  guard for one step, `ChatScreen.RunExact` the balance that decides a whole run, both with no assumption on the
  traffic; for well-routed traffic `ChatScreen.RoutedRunExact` says it by the events alone;
  `NamelessSenderBreaksScreen` is an input.
* **Chat with oneself** would show each message several times, and other people's messages as well
  (`ChatModel.RebuiltOnceExactly`; input: `SelfChatRepeats`). The client allows it; the server refuses to make
  a user their own friend (`src/BusinessHandler.cpp:112`).
* **Display order.** Message ids come from one counter per client, so a conversation is shown in arrival order
  exactly when the ids happen to be in order, own messages first among equal ids
  (`ChatModel.ArrivalOrderExactly`; input: `ReplyShownFirst`). Own messages are in sending order exactly when their
  ids are (`ChatModel.OwnOrderExactly`). Runs whose echoes fit in guarantee that; an own message pulled from the
  history after login carries a database id and may not fit in (input: `PulledMessageShownLate`).
* **Friendship.** `doc/面试.md` says that status 1 means the two are friends of each other. `removeFriend`
  deletes one direction only, and an `addFriend` that fails between its two INSERTs leaves one direction:
  `FriendsTable.MutualStepExact`, `OneSidedExactly`, `HalfAddIsOneSided`.
* **`getFriendPair`** pairs ids and names by position behind a length check. That suffices if each query reads
  everything or nothing; if `sqlite3_step` fails in the middle of one, wrong pairs are possible
  (`FriendsTable.FriendPairRightExactly`, `BrokenOffQueryMispairs`).
* **Stalled queues.** A queue stalls exactly at a write error, or when a write ends on a closed socket with more in
  the queue (`SessionModel.StallsExactly` for a step, `RunStallsExactly` for a run); then it stays so for
  good (inputs: the run of `SessionModel.StrandedReachable`; any write error on a session that is not stalled).
* **Sessions that stay in `sessions_`.** A member can still be removed exactly when it is not stranded, that is,
  not both stalled and without a read (`ServerModel.RemovableExactly`; input: `SessionModel.StrandedReachable`). One to
  which nothing more is sent can be removed exactly when it is reading, writing, or about to begin a write
  (`ServerModel.RemovableUnsentExactly`, `SessionModel.StoppableUnsentExactly`; `LeftOverExactly` gives the steps
  that end this). A LOGOUT with nothing to write ends it: the business handler is told, but the session stays
  in the set (`ServerModel.LogoutLeaks`, `LogoutReachable`). That is the input that occurs in practice;
  `StrandedReachable` needs a write and a read that still succeed after `PeerDropped`, which only the assumption that
  the socket may cease to be open at any time admits.
* **Disconnections.** A session leaves `sessions_` exactly when one of its reads or writes failed, and the business
  handler is told of its end, or a close that will tell it is under way, exactly when `close` was called
  on it. The two agree on who is gone exactly when both happened or neither
  (`ServerModel.ReportedExactly`; inputs: `ReadErrorUnreported`, `LogoutReachable`).
* **Logger.** What is accepted when `stop` is called is printed before the consumer exits, unless the consumer is
  then at `while (running)` with a nonempty queue, in which case that whole queue is lost
  (`LoggerModel.StopLosesExactly`; input: `LoggedBeforeStopCanBeLost`).

## Modelling assumptions

* Ids, times and message ids are mathematical integers. The content of a message is either unparsable or an object whose
  `username` and `text` are strings or missing. The client is modelled from a successful login on, with a fixed user.
* The `io_context` runs on one thread (`src/main.cpp:20`), so handlers are atomic and posted lambdas run in post
  order. `async_write` takes its bytes when it is begun. `open` never becomes true again; an operation begun on a
  closed socket fails. A read delivers one whole frame. When the handler of a message calls `close` (LOGOUT), the socket
  is closed before the read handler looks at it again: the run has `PeerDropped`, then the `ReadOk`, then `Close`.
* A sequential database operation that finds the pool empty waits forever; methods return `None` for that. Tables
  are sequences in row order, and the two friend queries enumerate `friends` in that order. Foreign keys are
  not enforced (no PRAGMA is issued). Prepare failures, failed statements and queries that break off are parameters;
  random draws are parameters; SHA-256 is an arbitrary function.
* Pushing back to the pool and taking from it are atomic, although the source pushes without the mutex.
* `log` compares the level and pushes in one step; in the source a `setLogLevel` may fall between the two
  (`inc/Log.h:66-77`). What is proved of queue, printing and loss does not depend on the level.
* In the logger the wait ends only when its condition holds; a wake-up lost in `stop` is not modelled.

## Model

| member | source | states |
|---|---|---|
| StableSort.SortExact | front/script.js:345 | a sequence is sorted and keeps the order within every key if and only if it is `Sort` of the input: the stable sort exists and is unique |
| StableSort.SortInPlace | front/script.js:345 | the array algorithm leaves the stable sort of what the array held |
| StableSort.SortedCopy | front/script.js:395 | sorting a grown list yields its stable sort |
| StableSort.SortAbsorbsEarlierSort | front/script.js:344-366 | sorting a sorted prefix with later arrivals equals sorting all arrivals |
| StableSort.SortPermutes | front/script.js:344-366 | sorting loses and repeats nothing |
| ChatModel.DisplaySortsAllArrivals | front/script.js:302-316 | displays that sort the cache in place make no difference to the next sort: it is that of the whole arrival log |
| ChatViews.DisplayedInTimeOrder | front/script.js:302-316 | for every interleaving of pushes and displays, the next display has every arrival once, from the earliest to the latest, in arrival order at equal times |
| ChatViews.TimeOrderExact | front/script.js:345 | a list is what the sort gives if and only if it has the log's entries in order of their time stamps, in log order at equal ones |
| ChatViews.PublicViewExact | front/script.js:344-366 | bubbles are what the room shows if and only if they are one per entry in that order, own exactly for the user's entries |
| ChatViews.ConversationExact | front/script.js:367-406 | bubbles are what a conversation shows if and only if they are one per message between the two in order of id, own ones first among equal ids, in log order otherwise, own exactly for the user's |
| ChatViews.BlankExactly | front/script.js:115 | a text is blank if and only if all its characters are among the listed white space and line terminators |
| ChatViews.SubmitExact | front/script.js:103-144 | a text of white space changes nothing; any other grows one log by that message with its time stamp, and the screen by one own bubble |
| ChatViews.TextExact | front/script.js:273-282 | a private message is logged as it is, whatever is open, and shown as a received bubble if its sender's chat is |
| ChatViews.GroupExact | front/script.js:290-300 | a group message is logged as it is, and shown as a received bubble if its chat is open |
| ChatModel.IndexAgreesStep | front/script.js:317-342 | filing a message under sender and receiver keeps every bucket equal to the log's messages of that user, self-messages doubled |
| ChatModel.BucketsHoldBothSides | front/script.js:367-392 | the two collecting loops yield the user's and the friend's side of the conversation, each in log order |
| ChatModel.RebuiltIsSortedExchange | front/script.js:367-406 | the rebuilt view is the one-pass conversation of the log, sorted by id, own messages first among equal ids; every message once, own exactly if sent by the user |
| ChatModel.RebuiltOnceExactly | front/script.js:367-406 | every message of the conversation appears exactly once if and only if the chat is with someone else or nothing is addressed to the user |
| ChatModel.SelfChatRepeats | front/script.js:367-392 | a concrete run in which a message to oneself is shown repeatedly |
| ChatModel.ArrivalOrderExactly | front/script.js:394-405 | the view is in arrival order if and only if the ids are in order, with own messages first among equal ids |
| ChatModel.ReplyShownFirst | front/script.js:394-405 | a concrete run in which a message that arrived later is shown earlier |
| ChatModel.OwnOrderExactly | front/script.js:394-405 | own messages appear in sending order if and only if their ids are in order |
| ChatModel.PulledMessageShownLate | front/script.js:273-289 | a concrete run in which an own message from the history is shown after a newer one |
| ChatModel.OwnIdsStepExact | front/script.js:273-282 | a step keeps the user's ids increasing if and only if it is no echo of an own message, or one with a used id above all own ids so far |
| ChatModel.RunKeepsOwnIds | front/script.js:492-494 | the user's entries carry increasing ids below the counter at every point of a run if and only if every echo of an own message fits in |
| ChatModel.NoEchoFits | front/script.js:492-494 | a run without echoes is such a run |
| ChatModel.OwnMessagesInSendingOrder | front/script.js:367-406 | after any run, a conversation shows the user's messages in sending order if and only if their ids are in order; they are if every echo fits in, or there is none |
| ChatScreen.StepExact | front/script.js:103-144 | from a consistent screen a step leads to a consistent screen if and only if the guard on chat and event holds; opening a chat always does |
| ChatScreen.ConsistentSinceOpening | front/script.js:435-444 | whatever ran before, a screen is what reopening would show if every step since the last opening met the guard |
| ChatScreen.RunExact | front/script.js:91-300 | for any traffic, the screen is consistent after a run if and only if the bubbles shown live since the last opening are those that its messages add to the view |
| ChatScreen.RoutedRunExact | front/script.js:273-300 | with well-routed traffic, after any run the screen is consistent if and only if no nameless message was shown since the last opening |
| ChatScreen.MapSortPermutes | front/script.js:344-366 | sorting before display does not change which bubbles appear |
| ChatScreen.NamelessSenderBreaksScreen | front/script.js:296-299 | a concrete group message without a name after which screen and cache differ |
| ChatClient.Client.constructor | front/script.js:1-8 | a client just logged in, with empty caches, is valid |
| ChatClient.Client.GenerateMessageId | front/script.js:492-494 | hands out the counter and advances it |
| ChatClient.Client.AddMessageToCache | front/script.js:317-342 | the two map updates keep the index in agreement with the longer log |
| ChatClient.Client.AddMessageToPublicCache | front/script.js:302-316 | the push keeps the cache equivalent to the longer arrival log |
| ChatClient.Client.AddMessageToChat | front/script.js:449-490 | appends one bubble |
| ChatClient.Client.DisplayPublicMessages | front/script.js:344-366 | sorts the cache in place by time and shows one bubble per entry of it, own exactly for the user's |
| ChatClient.Client.ShowPublic | front/script.js:346-365 | one bubble per entry, marked own exactly for the user's entries |
| ChatClient.Client.CollectFrom | front/script.js:371-392 | appends the bucket's messages to one user, tagged |
| ChatClient.Client.DisplayCachedMessages | front/script.js:367-406 | shows what the two sent each other in order of id |
| ChatClient.Client.ShowTagged | front/script.js:397-405 | one bubble per message, in order |
| ChatClient.Client.OnSubmit | front/script.js:103-144 | a text of white space is dropped; any other is logged under the next id with its time stamp and shown as an own bubble |
| ChatClient.Client.OnText | front/script.js:273-282 | the message is logged with its ids and time stamp under the parsed or the stale content, and shown if its sender's chat is open |
| ChatClient.Client.OnGroupChat | front/script.js:290-300 | the message is logged likewise, and shown if the chat it is addressed to is open |
| ChatClient.Client.OnOpenFriend | front/script.js:435-444 | a click on a friend opens that chat and shows the conversation in order of id |
| ChatClient.Client.OnOpenPublic | front/script.js:91-98 | a click on the room opens it and shows its log in order of time |
| ChatClient.Client.OnControl | front/script.js:216-226 | any other message only takes an id |
| SessionModel.StepKeepsInv | src/Session.cpp:19-94 | every event keeps conservation, the single writer, the single reader and closedness after stop |
| SessionModel.RunKeepsInv | src/Session.cpp:19-94 | so does every run |
| SessionModel.EveryRunDelivers | src/Session.cpp:19-94 | after every run of a new session: wire, queue and posted handlers together are the messages given to `send`; one write and one read at most; on an open socket a write is outstanding if and only if the queue is nonempty; the handled messages are what exactly those frames decode to that decode, in order |
| SessionModel.HistoriesAreEvents | src/Session.cpp:19-60 | the sent messages and the received frames are those of the run's events |
| SessionModel.ReadHandles | src/Session.cpp:40-53 | a frame that decodes is handled whatever message it is, any other is dropped; the next read is armed if and only if the socket is open |
| SessionModel.HandledAreDecoded | src/Session.cpp:40-53 | over every run the handled messages are the decoded frames, none skipped, none reordered |
| SessionModel.OpenExactly | src/Session.cpp:12-18 | the socket is open if and only if no read or write failed, no close finished and the peer did not drop |
| SessionModel.FrameDecodesAlone | src/Session.cpp:36-60 | the buffer is empty when a read is armed, so each decoded string is one frame |
| SessionModel.WriterHasFront | src/Session.cpp:81-83 | `pop_front` never meets an empty queue |
| SessionModel.StalledForever | src/Session.cpp:81-91 | a nonempty queue without a write means a closed socket, and no run ever extends the wire again |
| SessionModel.StallsExactly | src/Session.cpp:80-92 | a queue that is not stalled becomes so if and only if a write fails, or one ends on a closed socket with more in the queue |
| SessionModel.RunStallsExactly | src/Session.cpp:80-92 | after any run the queue is stalled if and only if the run had such an event |
| SessionModel.ClosedWireGrowsOnceAtMost | src/Session.cpp:80-91 | once closed, only a write already under way can still reach the wire |
| SessionModel.CalmRun | src/Session.cpp:19-30 | without errors and new sends each handler works off one unit of the measure |
| SessionModel.CalmRunDrains | src/Session.cpp:73-94 | such a run has at most that many handlers, that many if and only if none is left, and if and only if everything sent is on the wire |
| SessionModel.StoppableExactly | src/Session.cpp:12-18 | a started session can still be stopped by some run if and only if it is not stranded |
| SessionModel.StrandedNeverStops | src/Session.cpp:51-56 | no run stops a stranded session |
| SessionModel.StoppableUnsentExactly | src/Session.cpp:12-18 | a started session to which nothing more is sent can still be stopped if and only if it is reading, writing, or has a post that will begin a write |
| SessionModel.LeftOverExactly | src/Session.cpp:40-92 | the steps that end this: the last read ends without a write under way, or the last write without a read, and no post begins another |
| SessionModel.LeftOverNeverStops | src/Session.cpp:12-18 | without a send, no run stops such a session |
| SessionModel.LogoutLeavesOver | src/Session.cpp:40-72 | a close from within the read handler, with nothing to write, leaves a session that was told and never stopped |
| SessionModel.StrandedReachable | src/Session.cpp:51-91 | a concrete run that strands a session |
| Session.Server.constructor | src/Server.cpp:5-9 | a server starts without sessions, and in order |
| Session.Server.OnHandshake | src/Server.cpp:17-30 | a successful handshake inserts a fresh session and starts its one read; a failed one changes nothing; all sessions stay in order |
| Session.Server.RemoveSession | src/Server.cpp:37-39 | erases that session and no other |
| Session.Session.constructor | src/Session.cpp:4-6 | a new session is in the fresh state |
| Session.Session.StartReading | src/Session.cpp:8-10 | start arms the first read |
| Session.Session.StopSession | src/Session.cpp:12-18 | stop closes the socket and leaves the server's set without this session |
| Session.Session.StaysAccepted | src/Server.cpp:37-39 | any step of one session, with its removal if it stops, keeps the set equal to the accepted sessions never stopped |
| Session.Session.SendMessage | src/Session.cpp:19-30 | send only posts; like every handler below, it keeps all the server's sessions in order |
| Session.Session.RunPosted | src/Session.cpp:22-28 | the posted lambda enqueues, and writes if the queue was empty |
| Session.Session.StartWrite | src/Session.cpp:73-79 | begins a write of the front message |
| Session.Session.OnWrite | src/Session.cpp:80-92 | the front message is on the wire and off the queue, the next write begun if the socket is open; on error the session is stopped and leaves the server's set |
| Session.Session.StartRead | src/Session.cpp:36-40 | arms one more read |
| Session.Session.OnRead | src/Session.cpp:40-58 | a frame that decodes is handled, the next read armed if the socket is open; on error the session is stopped and leaves the server's set |
| Session.Session.ConsumeFrame | src/Session.cpp:42-50 | takes the frame off the buffer and handles whatever message the whole text decodes to |
| Session.Session.CloseSession | src/Session.cpp:62-65 | begins a close |
| Session.Session.OnCloseDone | src/Session.cpp:65-70 | a finished close, failed or not, leaves the socket closed and tells the business handler |
| Session.Session.OnPeerDropped | src/Session.cpp:51-53 | the socket may cease to be open at any time |
| ServerModel.RunKeepsInv | src/Server.cpp:11-39 | every run of the server keeps every session's invariant and the membership law |
| ServerModel.EveryRunMembership | src/Server.cpp:17-25 | after every run a session is a member if and only if it was accepted and never stopped; a member without a read is closed; every wire is a prefix of what was sent |
| ServerModel.SessionsIndependent | src/Server.cpp:37-39 | in any interleaving a session ends where its own events take it, and is removed only if one of them stops it |
| ServerModel.StrandedMemberLeaks | src/Server.cpp:37-39 | a stranded member stays in the set through every run |
| ServerModel.RemovableExactly | src/Server.cpp:37-39 | some run removes a member if and only if it is not stranded |
| ServerModel.LeftOverMemberLeaks | src/Server.cpp:37-39 | a left-over member stays in the set through every run that sends it nothing |
| ServerModel.RemovableUnsentExactly | src/Server.cpp:37-39 | some run that sends it nothing removes a member if and only if it is not left over |
| ServerModel.LogoutLeaks | src/Session.cpp:40-72 | from any state, a logout with nothing to write is reported, but leaves the session in the set until something is sent to it |
| ServerModel.LogoutReachable | src/Session.cpp:40-72 | a concrete run with such a logout |
| ServerModel.ReportedExactly | src/Session.cpp:12-18 | after every run a session is out of the set if and only if one of its own reads or writes failed, and unreported if and only if it was never closed; the two registries agree if and only if both or neither |
| ServerModel.ReadErrorUnreported | src/Session.cpp:54-57 | a concrete session that leaves the set by a read error, and is unreported through every later run without a close |
| FriendsTable.TableIsItsHistory | src/Database.cpp:132-211 | after any history with partial failures, (u, f) is present if and only if some insert has no later removal, accepted if and only if that insert is followed by an acknowledgement in either direction; one row per pair |
| FriendsTable.StepEffect | src/Database.cpp:132-211 | what one operation does to one pair |
| FriendsTable.Accept | src/Database.cpp:170-182 | the UPDATE marks the pair in both directions and nothing else |
| FriendsTable.Delete | src/Database.cpp:196-206 | the DELETE removes one direction and nothing else |
| FriendsTable.MutualStepExact | src/Database.cpp:132-211 | a mutual pair stays mutual if and only if the step does not insert or delete one direction alone |
| FriendsTable.OneSidedMeansRemoved | src/Database.cpp:192-211 | without failed INSERTs, a one-sided friendship means that the missing direction was removed |
| FriendsTable.OneSidedExactly | src/Database.cpp:132-211 | without failed INSERTs, a friend of u does not have u as a friend if and only if some removal of that direction was followed by no insert and acknowledgement |
| FriendsTable.RemoveFreeIsSymmetric | src/Database.cpp:132-190 | without failed INSERTs and removals the table is symmetric in presence and status |
| FriendsTable.HalfAddIsOneSided | src/Database.cpp:151-155 | a failure between the two INSERTs is enough for a one-sided friendship |
| FriendsTable.AddAndAckMakeMutual | src/Database.cpp:132-190 | after any history, adding and acknowledging makes both friends of each other |
| FriendsTable.FriendIdsAreAccepted | src/Database.cpp:246-268 | the id list holds exactly the accepted friends |
| FriendsTable.FriendIdsOnce | src/Database.cpp:246-268 | no friend is listed twice |
| FriendsTable.NamesFollowIds | src/Database.cpp:214-244 | the name query is the id query with each id replaced by its name or dropped |
| FriendsTable.FriendPairExact | src/Database.cpp:269-279 | the result is the full list of ids with their names if both queries ran and every friend has a name, and empty in every other case |
| FriendsTable.FriendPairRightExactly | src/Database.cpp:269-279 | with queries that break off anywhere, the pairs are right if and only if the lengths differ or every id read has a name |
| FriendsTable.BrokenOffQueryMispairs | src/Database.cpp:260-278 | a concrete table on which a broken-off query pairs an id with another friend's name |
| OfflineMail.TableIsMailboxes | src/Database.cpp:343-408 | after any history a user's mail is what was stored for that user since the last mark, in order |
| OfflineMail.MailboxesSeparate | src/Database.cpp:343-408 | a user's mail does not depend on other users' operations |
| OfflineMail.LastRead | src/Database.cpp:390-408 | where the history of a user's current mail begins |
| OfflineMail.ContentsPrefix | src/Database.cpp:378-381 | a query that breaks off has read the beginning of the mail |
| ConnectionPool.PoolIsRotation | src/Database.cpp:39-68 | after any operations and prepare failures the pool is a rotation of the surviving connections in creation order, one fewer per failure, and empty if and only if every connection has failed |
| ConnectionPool.RoundRobin | src/Database.cpp:31-45 | without failures the k-th operation gets connection k mod n |
| ConnectionPool.RunKeepsInv | src/Database.cpp:39-66 | over every interleaving of callers, pool, held and lost connections together are the created ones |
| ConnectionPool.NeverShared | src/Database.cpp:39-66 | pool, callers' hands and lost connections are disjoint, and none holds a connection twice |
| ConnectionPool.StuckExactly | src/Database.cpp:39-45 | no caller waits while holding a connection, and the callers are stuck if and only if every connection is lost |
| ConnectionPool.OneLostPerFailure | src/Database.cpp:141-155 | each prepare failure loses one connection |
| ConnectionPool.EveryInterleaving | src/Database.cpp:39-66 | from idle callers, the system is stuck if and only if as many prepares failed as there were connections |
| ConnectionPool.OperationAlone | src/Database.cpp:141-164 | a caller that runs an operation by itself, with one statement or with the two of `addFriend`, leaves the pool as the sequential operation does, whichever statement fails to prepare |
| Credentials.HexEncode | src/Database.cpp:437-441 | two lower-case hexadecimal digits per byte, the high one first |
| Credentials.HexIsHex | src/Database.cpp:437-441 | reading the digits back gives the bytes |
| Credentials.HexExact | src/Database.cpp:423-442 | two byte strings print the same if and only if they are equal |
| Credentials.GenerateUserId | src/Database.cpp:410-421 | nine digits, each one more than its draw, so none of them 0 |
| Credentials.TableHoldsAccounts | src/Database.cpp:47-85 | the table holds, per id, the first registration under its latest name |
| Credentials.LoginExact | src/Database.cpp:87-111 | login succeeds if and only if the digests agree with the first registration, and yields the latest name |
| Credentials.RegistrationSurvives | src/Database.cpp:47-111 | once an id is registered, later registrations and renamings never change which passwords log in |
| Database.ReadFriendIds | src/Database.cpp:258-262 | the cursor loop returns the id query of the rows it reached |
| Database.ReadFriendNames | src/Database.cpp:233-239 | the cursor loop returns the usernames of the ids it reached, where they have one |
| Database.JoinReadsUsernames | src/Database.cpp:218-239 | the join yields the username column |
| Database.NamesFromHistory | src/Database.cpp:214-244 | the join yields the latest names the ids were registered or renamed to |
| Database.FriendsFromHistory | src/Database.cpp:246-268 | the id query yields the accepted friends of the history, each once |
| Database.PairsFromHistory | src/Database.cpp:269-279 | the pairs have those ids under those names if all were ever registered, and are none otherwise |
| Database.ReadContents | src/Database.cpp:378-381 | the cursor loop returns the mail of the rows it reached |
| Database.ZipIfEqual | src/Database.cpp:272-278 | the loop zips lists of equal length, and returns nothing otherwise |
| Database.Database.constructor | src/Database.cpp:31-37 | a pool of fresh distinct connections |
| Database.Database.GetConnection | src/Database.cpp:39-45 | takes the front connection, or waits |
| Database.Database.UseConnection | src/Database.cpp:65-67 | an operation puts its connection back at the end, or loses it when a statement does not prepare |
| Database.Database.AddFriend | src/Database.cpp:132-165 | which INSERTs ran for every combination of failures, the reply, and the connection |
| Database.Database.AckAddFriend | src/Database.cpp:166-190 | the acknowledgement is recorded if and only if the statement ran |
| Database.Database.RemoveFriend | src/Database.cpp:192-211 | the removal is recorded if and only if the statement ran |
| Database.Database.GetFriendList | src/Database.cpp:246-268 | the accepted friends in row order, as far as the query got; unbroken, exactly those of the history, each once |
| Database.Database.GetFriendListUsername | src/Database.cpp:214-244 | the latest names of the ids the query reached, where there is an account; unbroken, of exactly the accepted friends |
| Database.Database.GetFriendPair | src/Database.cpp:269-279 | for unbroken queries the accepted friends of the history, each under the latest name of its account, or nothing if one has none; the zip of what was read in general |
| Database.Database.StoreOfflineMessage | src/Database.cpp:343-362 | the store is recorded if and only if the statement ran |
| Database.Database.GetOfflineMessages | src/Database.cpp:365-387 | what was stored for the user since the last successful mark, or its beginning |
| Database.Database.MarkMessagesAsRead | src/Database.cpp:390-408 | the mark is recorded if and only if the statement ran |
| Database.Database.RegisterUser | src/Database.cpp:47-68 | registers a free id, and refuses a taken one |
| Database.Database.SetUsername | src/Database.cpp:70-85 | renames a known id |
| Database.Database.AuthenticateUser | src/Database.cpp:87-111 | the latest name, for the password the id was first registered with |
| LoggerModel.EveryRunConserves | inc/Log.h:65-112 | over every interleaving, accepted entries are the printed ones, the one in hand and the queue, in this order |
| LoggerModel.HistoriesGrow | inc/Log.h:97-121 | what is printed stays printed; after exit nothing more is |
| LoggerModel.ExitLosesExactly | inc/Log.h:97-121 | at exit exactly the entries pushed after the last empty queue are unprinted, and stay so |
| LoggerModel.StopLosesExactly | inc/Log.h:97-121 | what is accepted at `stop` is printed before exit if and only if the consumer is not then at `while (running)` with a nonempty queue; if it is, exactly the queue is lost |
| LoggerModel.LoggedBeforeStopCanBeLost | inc/Log.h:88-121 | a concrete run that loses an entry accepted before stop |
| LoggerModel.ConsumerCatchesUp | inc/Log.h:102-110 | left alone, the inner loop prints everything accepted, three actions per entry |
| LoggerModel.StopEndsConsumer | inc/Log.h:97-121 | after `stop` the consumer left alone never waits again and exits after a number of actions given by its place and the queue |
| LoggerModel.LogExact | inc/Log.h:65-78 | an entry is dropped if and only if its level is below the threshold, and otherwise put at the end of the queue |
| Logger.Logger.constructor | inc/Log.h:88-90 | running, with an empty queue |
| Logger.Logger.SetLogLevel | inc/Log.h:45-61 | INFO, WARNING or ERROR if and only if the name is that word in any case; DEBUG otherwise; nothing else changes |
| LoggerModel.ParseLevelExact | inc/Log.h:45-61 | each level belongs to its word in any case, and DEBUG also to every unknown name |
| Logger.Logger.LogLine | inc/Log.h:65-78 | unless the level is below the threshold the queue grows by one entry of that level, whose text is the header and the pieces of the format with the arguments in the gaps |
| Logger.Logger.StopLogging | inc/Log.h:115-117 | clears the running flag |
| Logger.Logger.ConsumerAction | inc/Log.h:97-112 | the consumer's loop, one scheduling point at a time, is the model's consumer |
| LogFormat.Find | inc/Log.h:173-174 | the leftmost placeholder, or none |
| LogFormat.SplitPieces | inc/Log.h:167-180 | splitting leaves no placeholder in a piece and loses nothing |
| LogFormat.SplitExact | inc/Log.h:171-180 | it is the only way to cut a format at placeholders into pieces without any |
| LogFormat.FormatIsInterleave | inc/Log.h:166-180 | formatting fills the gaps of that one split in order; argument text is never searched, surplus placeholders stay |
| LogFormat.SurplusArgumentsDropped | inc/Log.h:171-180 | arguments beyond the last placeholder do not appear |
| LogFormat.LineExact | inc/Log.h:70-75 | a queued line is its header followed by the pieces of the format with the arguments in the gaps |

## Left out

- ChatScreen.RoutedRunExact: assumes well-routed traffic, because otherwise two deviations of a run can cancel out; `StepExact`, `ConsistentSinceOpening` and `RunExact` make no such assumption.
- Session.Server.constructor: without the acceptor, the business handler and the first `accept`; which connections arrive is up to the caller of `OnHandshake`.
- Session.Server.OnHandshake: without the closing of the socket after a failed handshake, which no session has.
- Logger.Logger.StopLogging: without waking the consumer and joining its thread; the consumer's actions may come at any time after it.
- ConnectionPool.PoolIsRotation: one operation at a time; interleaved callers are covered by `EveryInterleaving`, which does not speak of order.
- JSON text, WebSocket framing and TCP: a decoder is an arbitrary partial function, a read delivers a whole frame.
- Message.cpp: the table of message type names is a finite check.
- BusinessHandler.cpp is not part of this model: a handled message is recorded, and what it makes sessions send are further events.
- `storeMessage`, `getRecentMessages`: date arithmetic; they change nothing the other operations read.
- `processEntries` as one nested loop: it gives up the mutex inside the loop, so it is modelled as the atomic actions between two such points. That the thread ends after `stop` is shown for a consumer left alone (`StopEndsConsumer`), not under every schedule.
- File bubbles (`FILE`, the file chooser): shown but never cached, so they always break the screen law; a FILE message also replaces the stale `content` that an unparsable message falls back to.
- Displayed times and avatars: the live path reads a misspelled field, so bubbles are compared without them.
- Login, registration, friend requests, emoji panel, reconnecting and alerts in the client: no state that the views depend on.
- C++ memory questions: the lifetime of the local JSON text during `async_write`, the unlocked push to the pool, and member initialisation order in the logger.
- Config, Utils, `main.cpp`, `tests/test_client.cpp`, which targets an older message API.
