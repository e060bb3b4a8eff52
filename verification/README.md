# A Dafny model of EpcTools

EpcTools is a C++ library for telecom nodes. This project models its stateful and algorithmic
parts and proves what they are for. `dafny verify dfyconfig.toml` checks all of it.

| file | component |
|---|---|
| `PfcpModel.dfy` | the PFCP communication thread as a step machine over values: datagrams that may be lost, duplicated or reordered, sends, T1 expiries, decode errors, response-window and activity ticks |
| `PfcpRuns.dfy` | theorems over whole runs of that machine: duplicate suppression, ageing of both maps, at most N1 writes, ownership of application messages, the activity ring |
| `PfcpProgress.dfy` | what the thread does do: when requests and responses are handed up, where requests are written to, how remote nodes change state |
| `PfcpFailures.dfy` | runs of that machine, event by event, on which a request's message is disposed of twice or an entry is never removed |
| `PfcpNode.dfy` | the classes `RemoteNode`, `RequestOut` and `LocalNode`, whose methods update their maps and windows in place; each is proved to be a step of the machine |
| `TeidRange.dfy` | the manager of TEID range values |
| `SlottedQueue.dfy` | the shared message queue under concurrency: any number of pushers and poppers, with each call on one of its semaphores taken as a single step |
| `SharedQueue.dfy` | the queue on its two semaphores as they are, an atomic counter before a kernel semaphore each, so that every atomic operation inside a call may be interleaved |
| `SharedMessages.dfy` | that what comes out of that queue is what was put in, push by push |
| `QueueCallers.dfy` | which callers keep the queue intact, with the runs that break it on a ring of any size |
| `SharedBlocking.dfy`, `QueueBlocking.dfy` | which waiting pushers can block each other for good, on the semaphores as they are, from the same with each call as one step |
| `QueueBytes.dfy`, `MessagePacking.dfy` | the same queue and its messages at the byte level: packing fields, cutting messages into slots of a flat ring, putting them together again |
| `Semaphore.dfy` | the semaphore protocol (atomic counter before a kernel semaphore) and the compare-and-swap spin lock, over every interleaving |
| `SemaphorePool.dfy` | allocation of semaphore ids from a free list threaded through an array |
| `TimerPool.dfy` | expiration timers: two indexes, shared deadlines, recycled operating system timers, refining a map from identifier to deadline and action |
| `Wildcard.dfy` | the file mask matcher, which backtracks only to the last asterisk |
| `DnsName.dfy`, `DnsMessage.dfy`, `DnsEncoding.dfy`, `DnsLength.dfy`, `DnsText.dfy` | domain names with compression pointers, the message parser, well-formed messages defined apart from the parser, where the parser stands compared with the length fields of records, and what is read in terms of octets alone: case, dots, pointers, type numbers |
| `DnsCache.dfy`, `DnsCacheRuns.dfy` | query results with their times, the cache, and runs of the cache with its refresher |
| `DnsCacheNode.dfy` | the cache object, the queries on their way and the refresher as updated in place; each method is proved to be a step, and the submitting loop a path, of that machine |
| `CircularBuffer.dfy` | the circular byte buffer as a byte sequence |
| `IsoWeek.dfy` | year and week number of a date |
| `JsonMerge.dfy` | the recursive merge of JSON documents |
| `Bytes.dfy`, `Wrappers.dfy` | octets, optional values and results, shared by the other modules |

Where an operation changes state, a method does the same and is proved against a function or
predicate; the theorems are about those.

The code differs from what its own comments or the standards lead one to expect in these places,
and the model follows the code:

- A request whose sequence number is still in use is handed back to the application and its
  message is also destroyed with the request object (`src/epfcp.cpp:1139-1166`);
  `PfcpFailures.CollisionDisposesTwice` is such a run.
- A response that cannot be decoded resets the response window of its request although T1 has been
  stopped, so the entry is never removed by ticks again (`src/epfcp.cpp:2249-2251`);
  `PfcpFailures.DecodeErrorPins` is such a run.
- A non-waiting decrement, or one whose wait is interrupted, puts its decrement back in a second
  step; an increment between the two leaves a surplus permit (`src/esynch.cpp:477-489`).
  `push` and `pop` leave it to each call whether to wait (`include/epc/eqbase.h:143-147`), so when
  calls that wait meet calls that do not, a push can write over a slot nobody has read
  (`QueueCallers.StrayPostOverwrites`). The queue is intact exactly for callers that all wait
  without being interrupted, or that all do not wait, on each of its semaphores.
- Waiting pushers reserve slot by slot and can block each other for good
  (`src/eqbase.cpp:169-181`): two of two slots each do so on a ring of two slots
  (`SharedBlocking.PushersCanBlock`), and `SharedBlocking.PushersBlockIff` says which do.
- Compression pointers are followed wherever they lead, so some names are followed for ever
  (`src/dnsparser.cpp:265-281`, `DnsName.TwoStretchesNeverReturn`); a cycle with a label in it also
  appends that label to the name in each round, until memory runs out.
- A message cut short is read past its end or through a null pointer
  (`src/dnsparser.cpp:61-64`, `src/dnsparser.cpp:74-100`); the model has the outcome `PastEnd` there.
- A read from the circular buffer with a non-zero offset continues past the contents, and removes
  bytes that are not there (`src/ecbuf.cpp:65-97`); `CircularBuffer.ReadPastContents` does so.
- A name whose last label is followed by a pointer to the root is displayed with a dot at the end;
  a name that is only such a pointer is displayed as nothing (`src/dnsparser.cpp:255-288`,
  `DnsName.RootByPointerShows`).
- Record parsers for names ignore RDLENGTH (`src/dnsparser.cpp:153-228`), so after such a record the
  parser need not stand where the record ends: `DnsLength.LengthIgnored` is an input,
  `DnsLength.RecordStopsAtLengthIff` the condition.
- A result without any non-zero TTL never expires (`include/epc/dnsquery.h:135-152`), yet is
  refreshed at every look (`DnsCache.UncachedIsAlwaysDue`).
- JSON `true` and `false` are different types to the merge, so merging one into the other fails,
  and the caller ignores a failed merge (`src/egetopt.cpp:234-237`, `src/egetopt.cpp:1057`):
  the rest of the source is dropped (`JsonMerge.TrueIntoFalse`).
- The queue reads the four-byte length in one piece, so with slots of less than four bytes it can
  read past the end of the ring (`src/eqbase.cpp:238`, `QueueBytes.SecondLengthIsOutside`), and a
  message longer than 65535 bytes is serialised past the end of the work buffer
  (`src/eqbase.cpp:186-190`, `QueueBytes.LongMessageOverruns`).
- A timer identifier is not checked against those still live (`src/etimerpool.cpp:246-254`). A
  timer signal handled after its timer was stopped follows a null pointer while the timer is
  unused (`src/etimerpool.cpp:405-408`, `TimerPool.SignalOfUnusedTimer`); once the timer has been recycled
  (`src/etimerpool.cpp:103-107`) it notifies the next group, before its deadline
  (`TimerPool.EarlyNotification`).

## Model

| member | source | states |
|---|---|---|
| PfcpModel.StepInv | src/epfcp.cpp:883-1227 | every step of the machine, for every event, keeps the rings sized and aligned, the windows in range, and answered requests without message or timer |
| PfcpRuns.RunInv | src/epfcp.cpp:883-1227 | the invariant holds in every state of every run |
| PfcpProgress.DeliveredIff | src/epfcp.cpp:894-1007 | a request is handed off if and only if its sender is known or may be created, its session is found and its number is not remembered, the first request of an unknown node included |
| PfcpProgress.DeliveredIffForgotten | src/epfcp.cpp:925-1007 | over whole runs a request is handed off if and only if every earlier hand-off of that number was followed by the removal of its entry |
| PfcpProgress.ReplyWrittenIff | src/epfcp.cpp:1208-1227 | a reply is written exactly while its request is remembered and otherwise returned |
| PfcpProgress.ResponseHandedUpIff | src/epfcp.cpp:1009-1049 | a response is handed up exactly when its sender is known or may be created and a request with its number is held |
| PfcpProgress.FirstResponseReturnsMessage | src/epfcp.cpp:1009-1049 | the first response before the last expiry returns the application message with the response |
| PfcpProgress.WritesGoWhereSubmitted | src/epfcp.cpp:1127-1183 | every transmission goes to the node and carries the number its request was submitted with |
| PfcpProgress.LastExpiryReports | src/epfcp.cpp:1169-1206 | the expiry after the last attempt reports a timeout with the message, or for a heartbeat fails the node |
| PfcpProgress.StateStep | src/epfcp.cpp:796-1206 | what makes a node change state, and that exactly the changes are announced |
| PfcpRuns.DuplicateSuppressed | src/epfcp.cpp:925-1007 | between two hand-offs of the same (remote, sequence number) its entry was removed by a response-window tick or a decode error |
| PfcpRuns.RemovalBetween | src/epfcp.cpp:607-619 | an entry that is present and later absent was removed in between by one of those two events |
| PfcpRuns.ReplyIsRemembered | src/epfcp.cpp:1208-1218 | after a reply the entry stays until the second tick, in the current window before the first |
| PfcpRuns.RetransmissionNotRedelivered | src/epfcp.cpp:925-1007 | a retransmission arriving before the second tick after the reply is not delivered again |
| PfcpRuns.ReplyIsForgotten | src/epfcp.cpp:607-619 | an entry last marked by a reply ages by tick and is gone after the second |
| PfcpRuns.RedeliveredIffTwoTicks | src/epfcp.cpp:925-1007 | after one reply a request with that number is delivered again if and only if two or more ticks have passed |
| PfcpRuns.UnansweredNeverPurged | src/epfcp.cpp:607-619 | a request nobody answered survives any number of ticks and is never delivered twice |
| PfcpRuns.AnsweredRequestAges | src/epfcp.cpp:1101-1119 | an answered request keeps its number reserved through the first tick and is gone after the second |
| PfcpRuns.UnansweredStaysUntilLastExpiry | src/epfcp.cpp:1070-1206 | from submission on, until a response is accepted, a request stays under its number with one attempt less for each T1 expiry, whatever ticks pass and whatever else happens, and goes with its N1-th expiry and not before |
| PfcpRuns.NoAttemptsPins | src/epfcp.cpp:1169-1206 | a request submitted with no attempts is given up at once, but its entry stays until a response with its number is accepted |
| PfcpRuns.UndecodableResponsePins | src/epfcp.cpp:2249-2251 | after an undecodable response the entry stays in every later state until another response is accepted |
| PfcpRuns.GoneAtSecondTickIff | src/epfcp.cpp:1101-1119 | an answered request is gone at the second tick if and only if no response with its number failed to decode in between |
| PfcpRuns.AccountHolds | src/epfcp.cpp:1127-1206 | at every moment writes made plus attempts left equal N1 while a request is held, and its message is with exactly one owner |
| PfcpRuns.AtMostN1Writes | src/epfcp.cpp:1169-1183 | over any run a request is written to the socket at most N1 times |
| PfcpRuns.GivesUpAfterN1 | src/epfcp.cpp:1070-1086 | a timeout or a freed heartbeat comes only after exactly N1 writes |
| PfcpRuns.OwnershipAtMostOnce | src/epfcp.cpp:1127-1206 | an application message leaves its request at most once if and only if its submission did not meet a number still in use |
| PfcpRuns.LiveRequestsAreKeyed | src/epfcp.cpp:1131-1137 | every live entry was submitted under its own number and is the only one there |
| PfcpFailures.CollisionDisposesTwice | src/epfcp.cpp:1139-1166 | a run in which a request meets a number in use and its application message is handed back and freed |
| PfcpFailures.DecodeErrorPins | src/epfcp.cpp:2249-2251 | a run in which a request answered by an undecodable response holds its number after three ticks and turns the next request away |
| PfcpRuns.CheckActivityIsSlidingWindow | src/epfcp.cpp:587-605 | the check is false exactly when a full set of windows has been opened and none of the last saw activity |
| PfcpRuns.RingIsSlidingWindow | src/epfcp.cpp:577-585 | in every reachable state the ring equals the sliding window over the node's history |
| PfcpRuns.HeartbeatIffSilent | src/epfcp.cpp:774-793 | a tick sends a heartbeat to exactly the started nodes silent for a full set of windows |
| PfcpRuns.HeartbeatsAreSpaced | src/epfcp.cpp:774-793 | heartbeats to one node are at least as many ticks apart as there are windows |
| PfcpNode.RemoteNode.AddRcvdReq | src/epfcp.cpp:538-550 | inserts a number exactly when it was absent, with window zero |
| PfcpNode.RemoteNode.SetRcvdReqRspWnd | src/epfcp.cpp:552-561 | sets the window of an existing entry and reports whether there was one |
| PfcpNode.RemoteNode.RemoveOldReqs | src/epfcp.cpp:607-619 | the erasing loop leaves exactly the entries of other windows |
| PfcpNode.RemoteNode.NextActivityWnd | src/epfcp.cpp:577-585 | opens and clears a window and counts it until the set is full |
| PfcpNode.RemoteNode.HasActivity | src/epfcp.cpp:587-605 | the loop decides the activity check |
| PfcpNode.RemoteNode.HeartbeatDue | src/epfcp.cpp:780-791 | a started, silent node gets a heartbeat, which counts as activity |
| PfcpNode.RequestOut.OkToSnd | include/epc/epfcp.h:1804-1804 | consumes one attempt if one is left |
| PfcpNode.LocalNode.OnReceiveReq | src/epfcp.cpp:894-1007 | looking up or creating the sender and delivering or discarding is the machine's step |
| PfcpNode.LocalNode.OnReceiveRsp | src/epfcp.cpp:1009-1049 | marking the request, stopping T1 and handing up the message is the machine's step |
| PfcpNode.LocalNode.CreateRemoteNode | src/epfcp.cpp:816-844 | a new node has a full ring of zeros with the current window open and is started |
| PfcpNode.LocalNode.SndReq | src/epfcp.cpp:1169-1206 | one attempt, or giving up, is the machine's transmission |
| PfcpNode.LocalNode.SndInitialReq | src/epfcp.cpp:1127-1167 | storing and sending, or rejecting a number in use, is the machine's step |
| PfcpNode.LocalNode.OnReqOutTimeout | src/epfcp.cpp:1070-1099 | a T1 expiry is the machine's step, erasing the entry when attempts ran out |
| PfcpNode.LocalNode.SndRspTo | src/epfcp.cpp:1208-1227 | a reply is written and its entry marked, or returned, as the machine's step |
| PfcpNode.LocalNode.SetRqstOutRespWnd | src/epfcp.cpp:2249-2251 | an undecodable response is the machine's step |
| PfcpNode.LocalNode.PurgeRequests | src/epfcp.cpp:1105-1119 | the erasing loop frees exactly the requests of one window |
| PfcpNode.LocalNode.OnRspTimer | src/epfcp.cpp:1988-1994 | toggling the window and ageing both maps is the machine's step |
| PfcpNode.LocalNode.SendHeartbeats | src/epfcp.cpp:774-793 | the loop over all nodes asks for exactly the heartbeats due |
| PfcpNode.LocalNode.OnActivityTimer | src/epfcp.cpp:1980-1987 | checking, then opening the next window everywhere, is the machine's step |
| PfcpNode.LocalNode.AddRemoteNode | src/epfcp.cpp:796-852 | creating or restarting a node is the machine's step |
| TeidRange.TeidRangeManager.Create | src/epfcp.cpp:347-358 | a bit count outside 0 to 7 is refused; otherwise all values of the range start free |
| TeidRange.RangeSizes | src/epfcp.cpp:355-355 | the size of the range for each bit count accepted |
| TeidRange.TeidRangeManager.Assign | src/epfcp.cpp:364-377 | gives the value free longest, fails exactly when all are used, and keeps holders consistent if and only if the node held none |
| TeidRange.TeidRangeManager.Release | src/epfcp.cpp:379-387 | returns the node's value to the end of the free list; free and used partition the range |
| SlottedQueue.StepInv | src/eqbase.cpp:154-273 | with each call on a semaphore taken as one step, every step of any thread keeps the queue's layout, accounts, locks and order |
| SharedQueue.StepLinked | src/esynch.cpp:469-509 | whoever calls and however, every atomic operation keeps the queue's slot and message accounts equal to the permits left of its semaphores |
| SharedQueue.QueueKeptIffWithinPermits | src/eqbase.cpp:154-273 | up to any point of any run the queue keeps its invariant if and only if neither semaphore has let more decrements complete than it had permits |
| SharedQueue.UniformKeepsQueue | src/eqbase.cpp:154-273 | when on each semaphore all callers wait without being interrupted, or none waits, the invariant holds in every state of every interleaving |
| SharedQueue.QueueIsFifo | src/eqbase.cpp:154-273 | for such callers, in every interleaving, free, reserved and occupied slots add up to the ring and messages are popped once, in the order written |
| SharedQueue.PoppedIntact | src/eqbase.cpp:240-256 | for such callers, a message is popped by a reader that holds exactly its chunks in order |
| SharedMessages.PublishedWasPushed | src/eqbase.cpp:154-222 | whoever calls, the k-th message published is one a thread began to push and published at its turn, pushed this once |
| SharedMessages.PoppedWasPushed | src/eqbase.cpp:154-273 | for such callers, the k-th message popped is the k-th pushed |
| SharedQueue.WritersStayOffUnread | src/eqbase.cpp:196-217 | for such callers, no writer touches an unread slot |
| QueueCallers.StrayPostOverwrites | src/eqbase.cpp:169-217 | on a ring of any size, whenever some pushers wait and some do not, a run leads to a writer whose next step overwrites a slot nobody has read |
| QueueCallers.GuaranteesIffUniform | include/epc/eqbase.h:143-147 | on a ring of any given size where anybody may push, callers of a kind keep the queue intact in every run if and only if on each semaphore all wait uninterrupted or none waits |
| SlottedQueue.HeaderIsOldestMessage | src/eqbase.cpp:235-238 | in every state with the invariant the header found at the tail is that of the oldest message not popped |
| SlottedQueue.SlotIsNextChunk | src/eqbase.cpp:242-249 | in every state with the invariant the slot read next is the next chunk of that message |
| SharedBlocking.PushersBlockIff | src/eqbase.cpp:169-181 | on the real semaphores, waiting pushers of given messages can come to block each other if and only if the sum of (slots - 1) over the messages is at least the ring |
| SharedBlocking.StuckBelow | src/eqbase.cpp:154-273 | when no call on a semaphore can go on, nothing in the queue can either |
| SharedBlocking.BlockedForGood | src/eqbase.cpp:169-181 | blocked pushers get no further slot in any continuation by waiting callers |
| SharedBlocking.PushersCanBlock | src/eqbase.cpp:169-181 | two messages of two slots each block on a ring of two slots |
| QueueBlocking.StuckHoldsAll | src/eqbase.cpp:169-181 | in a blocked state every slot is reserved by pushers, none is occupied and no reader is left |
| MessagePacking.NumRoundTrip | src/emsg.cpp:35-99 | a number of any width and signedness in range is read back as packed |
| MessagePacking.BytesAreDigits | src/emsg.cpp:35-99 | the bytes of a packed number are its base-256 digits, the least significant first |
| MessagePacking.FieldRoundTrip | src/emsg.cpp:35-235 | unpacking one packed field restores it and ends where packing ended, whatever surrounds it |
| MessagePacking.FieldsRoundTrip | src/emsg.cpp:35-235 | matching pack and unpack sequences restore every field, strings cut to their length modulo 65536 |
| MessagePacking.AllRestoredIff | src/emsg.cpp:101-107 | all fields are restored unchanged if and only if every string is shorter than 65536 bytes |
| MessagePacking.LongTextLosesBlocks | src/emsg.cpp:101-107 | of a longer string only the remainder of its length modulo 65536 arrives |
| MessagePacking.DeclaredIsSerialised | include/epc/emsg.h:57-154 | the declared length of a message is its serialised length |
| MessagePacking.PackAll | src/emsg.cpp:35-132 | packing in place writes exactly the encoding at the offset and nothing else |
| MessagePacking.UnpackAll | src/emsg.cpp:134-235 | unpacking from the buffer yields the decoded fields and offset |
| QueueBytes.HeaderInRingIff | src/eqbase.cpp:237-238 | the length fits between every slot's start and the end of the ring if and only if a slot has at least four bytes |
| QueueBytes.Contiguous | src/eqbase.cpp:237-238 | the first bytes of the message at the tail lie in a row even when slots are smaller, up to the end of the ring |
| QueueBytes.ImageDecodes | src/eqbase.cpp:259-270 | type and time are read correctly before the kind of message is known, then every field |
| QueueBytes.ReceivedIs | src/eqbase.cpp:259-270 | a message of a known type arrives field by field as sent, any other is lost |
| QueueBytes.EQueueBase.Reserve | src/eqbase.cpp:169-181 | takes all slots or, after rolling back, none |
| QueueBytes.EQueueBase.WriteSlots | src/eqbase.cpp:196-217 | the slots at the head receive the pieces of the message in order, across any wrap |
| QueueBytes.EQueueBase.Push | src/eqbase.cpp:154-222 | appends the message exactly when enough slots are free, otherwise changes nothing, and overruns the work buffer exactly for messages longer than it |
| QueueBytes.EQueueBase.ReadSlots | src/eqbase.cpp:240-257 | the read buffer receives the message's bytes and every slot is given back |
| QueueBytes.EQueueBase.Take | src/eqbase.cpp:232-257 | the oldest message leaves the ring with identical bytes, unless its length would be read from outside the ring |
| QueueBytes.EQueueBase.Pop | src/eqbase.cpp:224-273 | returns the fields of the oldest message as pushed, or nothing for an unknown type; reads outside the ring exactly when the length does not fit at the tail |
| QueueBytes.SecondLengthIsOutside | src/eqbase.cpp:237-238 | on a ring of 25 slots of one byte two messages of 24 bytes are pushed and popped in turn, and the length of the second is read from outside |
| QueueBytes.LongMessageOverruns | src/eqbase.cpp:186-190 | a message of 65536 bytes for which there is a slot is written past the work buffer |
| Semaphore.StepKeepsBalance | src/esynch.cpp:469-509 | every atomic operation keeps the accounting law |
| Semaphore.DecrementTakesPermit | src/esynch.cpp:469-492 | a decrement completes at once exactly when there is a permit, and otherwise waits or has to be put back |
| Semaphore.RunIsBalanced | src/esynch.cpp:469-509 | in every interleaving waiters and undoers plus surplus equal max(0, -count) + kernel value + posts owed |
| Semaphore.WaitingCallersSafe | src/esynch.cpp:469-509 | with waiting callers no surplus exists and completed decrements never exceed initial count plus increments |
| Semaphore.NoLostWakeup | src/esynch.cpp:494-509 | a thread left waiting with nothing owed means every permit was taken |
| Semaphore.DecrementsBounded | src/esynch.cpp:469-492 | whoever calls, the permits are exceeded at most by the surplus |
| Semaphore.WithinPermitsIffSurplusCovered | src/esynch.cpp:469-509 | completed decrements stay within the permits if and only if the surplus is at most max(count, 0) plus the kernel value plus the posts owed |
| Semaphore.PollersSafe | src/esynch.cpp:485-489 | with callers that never wait, completed decrements stay within the permits in every run |
| Semaphore.GuaranteesIffUniform | src/esynch.cpp:469-492 | a way of calling keeps them within the permits in all its runs if and only if all callers wait uninterrupted or none waits |
| Semaphore.UndoIsSafeIffNegative | src/esynch.cpp:481-488 | putting a decrement back keeps the law of waiting callers if and only if the counter is still negative |
| Semaphore.SurplusStays | src/esynch.cpp:481-488 | a surplus is never absorbed, and the law holds exactly while there is none |
| Semaphore.NonWaitingRace | src/esynch.cpp:485-489 | a run with one increment, one non-waiting caller and two completed decrements |
| Semaphore.InterruptedRace | src/esynch.cpp:477-484 | the same with waiting callers of whom one is interrupted |
| Semaphore.MutualExclusion | src/esynch.cpp:362-391 | at most one thread is inside the spin lock in every run where only owners leave |
| Semaphore.EntersIffFree | src/esynch.cpp:362-391 | in such a run a try enters exactly when nobody is inside, and a leave makes room |
| Semaphore.LeaveIsSafeIffOwner | src/esynch.cpp:382-391 | leaving keeps the lock exclusive if and only if the leaver is inside or the lock is free |
| SemaphorePool.ChainIsUnique | src/esynch.cpp:247-302 | the links from a head determine the free list |
| SemaphorePool.ChainHasNoCycle | src/esynch.cpp:247-302 | a free list that ends has no repeated index |
| SemaphorePool.DoubleFreeHasNoChain | src/esynch.cpp:296-299 | pushing an index already on the list makes a cycle |
| SemaphorePool.SynchObjects.constructor | src/esynch.cpp:181-189 | the set-up loop builds the list of all ids |
| SemaphorePool.SynchObjects.NextSemaphore | src/esynch.cpp:247-266 | hands out an id not in use and fails exactly when all are |
| SemaphorePool.SynchObjects.FreeSemaphore | src/esynch.cpp:289-302 | returns an id; the list stays a list if and only if the id was in use |
| TimerPool.ExpireTimeOnGrid | include/epc/etimerpool.h:197-210 | deadlines lie on the grid, early by less than the resolution or late by at most it |
| TimerPool.IdsRepeatIff | src/etimerpool.cpp:246-254 | identifiers repeat exactly every 2^32 - 1 assignments |
| TimerPool.NotifiedOnceAsRegistered | src/etimerpool.cpp:190-208 | each notification has its own registration with the same deadline and action and nothing in between |
| TimerPool.NeverAfterRemoval | src/etimerpool.cpp:143-164 | no notification follows an unregistering or a notification without a new registration |
| TimerPool.LiveSinceRegistered | src/etimerpool.cpp:86-141 | a live timer carries the deadline and action of its last registration |
| TimerPool.Pool.LiveInOneGroup | src/etimerpool.cpp:129-138 | a live id is in exactly the group of its deadline, which the id map names; every group is non-empty and under its own deadline |
| TimerPool.Pool.OpenGroup | src/etimerpool.cpp:97-127 | a recycled or new timer is armed for a new deadline, or fails as the system calls do |
| TimerPool.Pool.Register | src/etimerpool.cpp:86-141 | adds the new id with its deadline to the map and to exactly one group; the pool stays consistent if and only if the id was not live |
| TimerPool.Pool.Unregister | src/etimerpool.cpp:143-164 | removes exactly that id, and its group with it when empty |
| TimerPool.Pool.RemoveExpirationTimeEntry | src/etimerpool.cpp:166-187 | an empty group leaves the index and its timer joins the free list |
| TimerPool.Pool.SendNotifications | src/etimerpool.cpp:190-208 | notifies each timer of the deadline once, as registered, and removes exactly those; fails exactly when the timer had been stopped; notifies early exactly when the timer has been armed again for a later time, never for a signal of its present arming |
| TimerPool.EarlyNotification | src/etimerpool.cpp:103-107 | a timer is unregistered, its system timer recycled, and its queued signal notifies the other timer long before the deadline |
| TimerPool.SignalOfUnusedTimer | src/etimerpool.cpp:405-408 | a timer is unregistered and the queued signal of its system timer finds no group |
| TimerPool.Pool.Uninit | src/etimerpool.cpp:225-231 | unregisters everything and empties both indexes |
| TimerPool.Pool.TimersConserved | src/etimerpool.cpp:86-187 | busy, free and lost timers are disjoint, all there are, and one per group |
| Wildcard.Match | src/edir.cpp:171-212 | true if and only if the recursive meaning of the mask accepts the string; it terminates |
| Wildcard.QuestionMark | src/edir.cpp:181-196 | a question mark stands for exactly one character, whatever it is |
| Wildcard.OrdinaryCharacter | src/edir.cpp:160-196 | any other character stands for itself, or for either case of a letter when case is ignored |
| Wildcard.LastStarSuffices | src/edir.cpp:189-205 | once a second asterisk is reached the choice for the first need not be revisited |
| Wildcard.MatchPrefix | src/edir.cpp:179-185 | the first loop rejects rightly or leaves an equivalent question |
| Wildcard.EndDecides | src/edir.cpp:208-211 | at the end of the string only the current starting point can succeed |
| Wildcard.CollapseAsterisks | src/edir.cpp:77-94 | the loop replaces each run of asterisks by one |
| Wildcard.CollapsedHasNoRuns | src/edir.cpp:77-94 | the normalised mask has no two adjacent asterisks and keeps its last character |
| Wildcard.CollapseKeepsMeaning | src/edir.cpp:77-94 | normalising does not change the accepted strings |
| Wildcard.NextEntry | src/edir.cpp:116-136 | the scan stops at the first name the user's mask accepts |
| DnsName.NameIsRead | src/dnsparser.cpp:230-301 | a name whose pointers go strictly backwards is read in finitely many steps as its displayed form, advancing by its octets in place |
| DnsName.DisplayedName | src/dnsparser.cpp:237-300 | root in place is a dot, a pointer to the root is nothing, otherwise lower-cased labels joined by dots if and only if no label is followed by a pointer to the root |
| DnsName.RootByPointerShows | src/dnsparser.cpp:255-288 | five octets on which a label before a pointer to the root is displayed with a dot at the end, and the pointer alone as nothing |
| DnsText.NameHasNoCapitals | src/dnsparser.cpp:300-300 | no name is read with a capital letter in it |
| DnsText.ShownAsWritten | src/dnsparser.cpp:237-300 | a name without capitals shows its labels as they are, joined by dots |
| DnsText.ReadAlikeIff | src/dnsparser.cpp:230-301 | two names, however compressed, are read as the same text if and only if their labels agree up to case |
| DnsText.StringIsItsOctets | src/dnsparser.cpp:303-316 | a counted string is its octets, with capitals and only them lowered |
| DnsText.CapitalsAreLowered | src/dnsparser.cpp:300-315 | the octets of "WWW" and "B" as a name and as a string |
| DnsText.FieldByTopBits | src/dnsparser.cpp:237-290 | what the two top bits of an octet make of it, errors included |
| DnsText.PointerOctets | src/dnsparser.cpp:265-281 | a pointer is fourteen bits, most significant first |
| DnsName.TerminatesIffWithinLength | src/dnsparser.cpp:230-301 | following a name ends if and only if it ends within as many steps as the message has octets |
| DnsName.NeverReturnsIff | src/dnsparser.cpp:230-301 | the parser's outcome is that it never returns if and only if no number of steps ends the name |
| DnsName.CycleNeverReturns | src/dnsparser.cpp:265-281 | a walk that comes to a cycle, through however many stretches of labels, never ends |
| DnsName.TwoStretchesNeverReturn | src/dnsparser.cpp:265-281 | eight octets of two names whose pointers lead to each other, from neither of which the parser returns |
| DnsName.OwnStretchNeverReturns | src/dnsparser.cpp:265-281 | a pointer into the labels it ends is followed for ever |
| DnsName.WrittenNameIsRead | src/dnsparser.cpp:230-301 | a name written without compression is read back, whatever surrounds it |
| DnsMessage.Parser.ParseDomainName | src/dnsparser.cpp:230-301 | for every input the loop yields the walk's text or error, or finds that it would not return, and advances only by the octets before and including the first pointer |
| DnsMessage.Parser.ParseQuestion | src/dnsparser.cpp:74-86 | name, type and class, or the failure of one of them |
| DnsMessage.Parser.ParseCharacterString | src/dnsparser.cpp:303-316 | a counted string in lower case |
| DnsMessage.Parser.ParseData | src/dnsparser.cpp:125-228 | the data of each record type with that type's lengths and errors |
| DnsMessage.Parser.ParseResourceRecord | src/dnsparser.cpp:88-123 | owner, fixed fields and data of one record |
| DnsMessage.Parser.Parse | src/dnsparser.cpp:35-54 | the four sections, each with its header's count |
| DnsText.TypesByNumber | src/dnsparser.cpp:104-121 | which type and class numbers are read as which kind of data |
| DnsText.AddressLengths | src/dnsparser.cpp:134-205 | addresses must have the length of their kind and are the octets themselves |
| DnsText.ServiceFields | src/dnsparser.cpp:207-228 | the fields of a service and of a naming authority record, octet by octet |
| DnsText.AnsweredIsRead | src/dnsparser.cpp:35-123 | a message of 35 octets with a question and an answer that points to it, field by field |
| DnsText.CutShort | src/dnsparser.cpp:74-123 | which parts are read past the end of a message |
| DnsEncoding.DataIsRead | src/dnsparser.cpp:125-228 | for every record type, parsing well-formed data stops exactly where its length says |
| DnsEncoding.RecordIsRead | src/dnsparser.cpp:88-123 | a well-formed record is read as it is, up to where it ends |
| DnsEncoding.MessageIsRead | src/dnsparser.cpp:35-54 | parsing any well-formed message, compressed or not, returns its questions and records |
| DnsEncoding.RecordWritten | src/dnsparser.cpp:88-228 | a serialised record is well-formed with its own contents at any place in a message |
| DnsEncoding.MessageRoundTrip | src/dnsparser.cpp:35-54 | parsing the serialisation of any valid message returns its questions and records and consumes every octet |
| DnsLength.NameStopsInPlace | src/dnsparser.cpp:230-301 | however a name goes on elsewhere, the parser goes on behind its end in place, found without following pointers |
| DnsLength.DataStopsAtLengthIff | src/dnsparser.cpp:125-228 | reading a record's data stops where RDLENGTH says if and only if the data fill that length in place |
| DnsLength.RecordStopsAtLengthIff | src/dnsparser.cpp:88-123 | the same for a whole record |
| DnsLength.SectionInStepIff | src/dnsparser.cpp:35-54 | the parser stands after each record of a section where the lengths put it if and only if every record, found by those lengths, fills its own |
| DnsLength.LengthIgnored | src/dnsparser.cpp:153-162 | name server data of three octets that end after one, alone and in a record |
| DnsLength.FillsThoughNotWellFormed | src/dnsparser.cpp:153-162 | data whose pointer goes forward fill their length although they are not well-formed |
| DnsCache.Query.AddAnswer | include/epc/dnsquery.h:135-152 | keeps the times of the result the least of all its non-zero-TTL records |
| DnsCache.Query.AddAuthority | include/epc/dnsquery.h:154-171 | the same for the authority section |
| DnsCache.Query.AddAdditional | include/epc/dnsquery.h:173-190 | the same for the additional section |
| DnsCache.KeyOrder | include/epc/dnsquery.h:78-85 | keys are strictly ordered and only equal keys are equivalent |
| DnsCache.DueIff | src/dnscache.cpp:575-581 | a result with a record that can be cached is due exactly when it has expired or the given part of its time to live, counted back from its expiry, has passed, with no arithmetic wrapping |
| DnsCache.UncachedIsAlwaysDue | src/dnscache.cpp:575-581 | a result without such a record never expires and is due at every look |
| DnsCache.PercentageBits | src/dnscache.cpp:577-578 | the percentage is a 32-bit number taken from a product of 64 bits |
| DnsCache.TtlIsUnsigned | include/epc/dnsrecord.h:142-142 | a time to live is returned with the same 32 bits, unsigned |
| DnsCache.Cache.UpdateCache | src/dnscache.cpp:551-564 | stores a result without error under its own key and counts new keys |
| DnsCache.Cache.Ask | src/dnscache.cpp:480-495 | a hit exactly when stored, not bypassed and not expired; no non-zero-TTL record of a hit has expired |
| DnsCache.Cache.IdentifyExpired | src/dnscache.cpp:566-585 | lists exactly the keys due for refresh, each once |
| DnsCache.Cache.GetCacheKeys | src/dnscache.cpp:587-593 | lists every key, each once |
| DnsCacheRuns.StepBalanced | src/dnscache.cpp:480-688 | every step keeps permits plus threads holding one plus outstanding refresh queries equal to the limit |
| DnsCacheRuns.RunBalanced | src/dnscache.cpp:480-688 | in every run that sum holds and the cache holds exactly what was last stored for each key |
| DnsCacheRuns.HitIsLastStored | src/dnscache.cpp:480-515 | whoever asks without bypassing the cache, a caller or the query loader, gets the result last stored, and the time is before every non-zero-TTL record's expiry |
| DnsCacheRuns.ServedUntilFirstExpiry | src/dnscache.cpp:480-515 | a stored result is served if and only if none of its non-zero-TTL records has expired |
| DnsCacheRuns.PermitsConserved | src/dnscache.cpp:638-688 | outstanding refresh queries never exceed the limit and all permits come back |
| DnsCacheRuns.RefreshAsksServer | src/dnscache.cpp:677-688 | a refresh sends a query for its next key under a permit, whatever the cache holds |
| DnsCacheRuns.LoadAsksServerIff | src/dnscache.cpp:768-770 | the query loader sends a query exactly when the cache has nothing to give, and has its permit back otherwise |
| DnsCacheRuns.MissAsksServer | src/dnscache.cpp:480-515 | a caller that is not served has a query sent for just what was asked |
| DnsCacheRuns.QueryStep | src/dnscache.cpp:178-214 | a query stays as asked until it is finished once and called back once |
| DnsCacheRuns.RefreshSubmitsAll | src/dnscache.cpp:664-700 | a refresh that has ended has asked past the cache for each of its keys, once and in order: those due, or all on demand |
| DnsCacheRuns.ExpiresWithTime | src/dnscache.cpp:480-515 | a stored result stops being served when its time has passed |
| DnsCacheNode.Resolver.Ask | src/dnscache.cpp:480-515 | asking the cache object is the machine's step, and hands out the result it serves |
| DnsCacheNode.Resolver.Send | src/dnscache.cpp:497-515 | querying with a permit in hand is the machine's step: the callback is made at once or the query is sent |
| DnsCacheNode.Resolver.Finish | src/dnscache.cpp:187-201 | parsing a message into its query and storing it unless the parser failed is the machine's step, with the records received |
| DnsCacheNode.Resolver.Callback | src/dnscache.cpp:638-642 | the callback is the machine's step and returns the permit the query had |
| DnsCacheNode.Resolver.StartRefresh | src/dnscache.cpp:664-675 | the work set up on the timer is what the machine allows: exactly the results due |
| DnsCacheNode.Resolver.ForceRefresh | src/dnscache.cpp:690-700 | the work set up on demand is the whole cache |
| DnsCacheNode.Resolver.SubmitQueries | src/dnscache.cpp:677-688 | the loop, whatever comes back while it waits, is a path of the machine on which the i-th query goes out past the cache for the i-th key under a permit; it waits exactly when no permit is left |
| DnsCacheNode.PathBalanced | src/dnscache.cpp:638-688 | along every such path permits, threads holding one and outstanding queries add up to the limit |
| CircularBuffer.ECircularBuffer.WriteData | src/ecbuf.cpp:102-133 | appends the bytes, or fails exactly when they do not fit |
| CircularBuffer.ECircularBuffer.ReadData | src/ecbuf.cpp:49-100 | reads the slice of the contents at the offset when it is in range, removes a prefix at offset zero, and otherwise, in front of the contents or past them, breaks the ring exactly as stated |
| CircularBuffer.ReadPastContents | src/ecbuf.cpp:65-97 | two bytes read from the second of two on: the read succeeds with two and the buffer is broken |
| CircularBuffer.ECircularBuffer.ModifyData | src/ecbuf.cpp:135-182 | overwrites that part of the contents, across any wrap, or fails exactly when it is not all there; a negative offset writes in front of them |
| CircularBuffer.RunOn | src/ecbuf.cpp:49-133 | a buffer put through any sequence of writes and reads holds, accepts and hands out what the bounded byte sequence does |
| CircularBuffer.FirstInFirstOut | src/ecbuf.cpp:49-133 | over any run bytes handed out followed by those left are those accepted, in order |
| IsoWeek.CalYearWeek | src/etime.cpp:74-117 | the year and week of the Thursday of the same Monday-based week, in at most two rounds |
| IsoWeek.IsoWeekIsUnique | src/etime.cpp:74-117 | a Thursday has only one year and week |
| IsoWeek.DaysOfOneWeekAgree | src/etime.cpp:74-117 | two days share a Thursday if and only if they are in the same Monday-based week |
| IsoWeek.FourthOfJanuary | src/etime.cpp:74-117 | the fourth of January is in week 1 of its year |
| IsoWeek.FiftyThreeWeeks | src/etime.cpp:74-117 | a year has a week 53 if and only if it starts on Thursday, or on Wednesday and is a leap year |
| IsoWeek.GregorianCycle | include/epc/etime.h:68-68 | the calendar repeats every 400 years, of which 97 are leap years |
| IsoWeek.LeapYears | include/epc/etime.h:68-68 | centuries are leap years only every fourth time |
| IsoWeek.NewYear2021 | src/etime.cpp:74-117 | the first of January 2021 was in week 53 of 2020 |
| JsonMerge.Merge | src/egetopt.cpp:213-261 | the recursive loop yields the merge, or the document as it stands at the first failure |
| JsonMerge.LoopIsMerged | src/egetopt.cpp:215-258 | with unique names merging one member after the other updates common names and appends new ones |
| JsonMerge.SucceedsIffAgree | src/egetopt.cpp:215-258 | a merge succeeds if and only if the documents agree: same type, and members of equal name agree, at every level |
| JsonMerge.MergedAt | src/egetopt.cpp:213-261 | along every path of names a merge holds what one document has where the other has nothing, of two scalars the source's, of two arrays the destination's elements followed by the source's |
| JsonMerge.WhatValuesGive | src/egetopt.cpp:228-256 | what two values give by their kinds, and that different kinds do not merge |
| JsonMerge.LaterNumberWins | src/egetopt.cpp:255-255 | an option set to two numbers in two files has the later one |
| JsonMerge.TrueIntoFalse | src/egetopt.cpp:234-237 | merging true into false fails there and drops every later member of the source |
| JsonMerge.MergedLookup | src/egetopt.cpp:213-261 | under each name a merge holds the one value, or both merged |
| JsonMerge.MergedUnique | src/egetopt.cpp:213-261 | names stay unique |
| JsonMerge.Associative | src/egetopt.cpp:213-261 | success and result of merging three documents do not depend on the grouping |
| JsonMerge.EmptyIsIdentity | src/egetopt.cpp:213-261 | the empty object is the identity on both sides |
| JsonMerge.NoNameLost | src/egetopt.cpp:213-261 | no name of the destination is lost or moved, even when the merge fails |
| JsonMerge.FailureStopsAtFirst | src/egetopt.cpp:213-261 | a failed merge leaves the members before the first failing one merged |

## Left out

- Sockets, threads, signals, operating system timers and shared memory: only their effect is kept, as steps, parameters or outcomes.
- PFCP encoding and decoding, sessions, statistics and logging: a datagram is a remote address, a sequence number, a kind and whether its session is found.
- PFCP with several local nodes: the model is one local node; the response window and the activity clock advance for it as for each of them.
- PFCP allocation of sequence numbers and session identifiers: both are inputs.
- PFCP races of a T1 expiry already queued when its timer is stopped, and what the translation thread does with a second response whose request has no message any more.
- PFCP change of the number of activity windows while running: the number is fixed for a run.
- SharedQueue.QueueIsFifo: assumes that readers and writers take their mutex; the code omits the mutex when a queue is opened for one reader or one writer.
- SlottedQueue.StepInv: takes a call on a queue semaphore as one step; `SharedQueue.dfy` does not.
- SharedBlocking.PushersBlockIff: is about pushers and poppers that all wait for as long as it takes.
- QueueCallers.GuaranteesIffUniform: says nothing of a queue nobody pushes to.
- QueueBytes.EQueueBase.Push: does not wait for free slots, and requires the declared length to need as many slots as the serialised one. The code serialises without a length check, so a longer message than the 65535-byte work buffer overruns it; what that overwrites is not modelled.
- QueueBytes.EQueueBase.Pop: what the code does with a length read from outside the ring is not modelled.
- The single-slot event queue (`src/etq.cpp`): a simpler case of the same queue.
- Failure of the kernel post in the semaphore's increment, and the wait of the spin lock between attempts.
- The public mutex free list: the same allocation over a list whose last link is not the end mark.
- TimerPool.Pool.Register: deadlines before the epoch are not modelled, nor what the pool does after an identifier still live was assigned again.
- TimerPool.Pool.SendNotifications: callbacks do not call back into the pool, and the order of notification is that of an unordered map.
- Wildcard.Match: characters above 127 with case ignored index the case table at a negative position in the code.
- DNS names are compared and lower-cased as in the C locale; the NS record object reports the type of a CNAME record, which the model's records do not carry.
- DnsMessage.Parser.ParseDomainName: where the code's loop goes on for ever the method stops after as many steps as the message has octets and says so. The text of a name is unbounded: that a cycle with a label runs out of memory instead is not modelled.
- DnsName.CycleNeverReturns: the same, as in DnsName.TwoStretchesNeverReturn and DnsName.OwnStretchNeverReturns.
- DnsMessage: what lies behind the end of a message is not modelled; reading it is the outcome `PastEnd`.
- DnsMessage.Parser.Parse: what was already filed when a later part of the message fails is not modelled; such a result is never stored.
- DNS octets after the last record are not looked at, as in the code.
- DnsCache.Cache.Ask: the query sent on a miss is the step `Send` or `Ask` of `DnsCacheNode.dfy`; that the synchronous call then waits for it is not modelled.
- DnsCacheNode.Resolver.SubmitQueries: the messages that come back while it waits are given; those that arrive while it is not waiting are other steps of the machine.
- DnsCache.Cache.IdentifyExpired: for a result without non-zero TTL the code's signed multiplication overflows; the model wraps.
- Saving and loading query files, name server lists and c-ares: only their queries are kept.
- IsoWeek.CalYearWeek: years are unbounded; the 32-bit overflow of the year is not modelled.
- CircularBuffer.ECircularBuffer.ReadData: memory in front of the array is not modelled; a read that begins there stops with an error of the model's own.
- CircularBuffer.ECircularBuffer.ModifyData: the same; of a write that begins in front of the contents and is longer than the whole array, and so overwrites itself, the resulting bytes are not stated.
- CircularBuffer.ECircularBuffer.WriteData: the mutex and negative lengths beyond doing nothing are not modelled.
- JSON values are immutable trees here: pointer identity, allocators and the moves of rapidjson are not modelled.
- The entity name selection of `src/epcdns.cpp`, hashes, freeDiameter wrappers, REST, compression, date guessing, NTP time and regular expression filters are not modelled.
