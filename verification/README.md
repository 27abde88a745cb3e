# Aqueduct, verified

A Dafny model of the Aqueduct publish/subscribe broker. The router's table, its message references, queues, subscriber
writers, log, slab allocator and codecs are modelled after the Go code, branch by branch, and the properties the broker
depends on are proved for all inputs and all interleavings.

| file | models |
|---|---|
| `Lists.dfy`, `Bytes.dfy` | distinct and flattened lists; little-endian numbers, copying into buffers |
| `Frames.dfy`, `Extensions.dfy`, `Decompression.dfy` | wire frames, batches, TLV extension blocks; what becomes of a compressed frame |
| `StreamReader.dfy` | the per-stream read, dispatch and grow loop against a one-shot decoder |
| `AppendLog.dfy`, `LogReplay.dfy`, `LogFile.dfy`, `LogRotation.dfy` | the append-only log: its records, replay in chunks, writing and rotating, what a rotation preserves |
| `Slab.dfy` | the slab allocator's free list and size classes |
| `Wildcard.dfy`, `Topics.dfy` | wildcard matching; publish and subscription payloads |
| `Routing.dfy`, `Fairness.dfy` | the subscriber table with its three indexes; round-robin groups |
| `Fifo.dfy`, `Queues.dfy` | one bounded queue under the overflow policies; lazy pooled channels over four of them |
| `Publishing.dfy`, `Deliveries.dfy`, `Router.dfy` | the publish and batch paths on values; whole runs; the router as an object |
| `RefHeap.dfy`, `MessageRefs.dfy`, `Ownership.dfy` | reference counts on values, as objects, and over every interleaving |
| `Writer.dfy`, `Nacks.dfy`, `Retries.dfy` | the coalescing writer and its frame cache; retries and dead letters; whom a retry reaches and whether the message comes back |
| `Backfill.dfy`, `Reconnect.dfy` | the backfill worker; durable reconnect interleaved with live publishing |
| `Mesh.dfy`, `MeshRuns.dfy` | forwarding to peers; runs of a mesh |

Code that updates fields or buffers step by step is a class or a method with loops, proved against functions on values;
the laws are lemmas about those functions. Concurrent code is a state machine whose steps are the operations between
two synchronizations.

Where the code does not do what its comments or a natural reading promise, the model follows the code, the exact
condition is proved, and a lemma or the condition itself shows a failing case:

- A published topic that is itself a filter some active subscriber gave reaches that subscriber twice (`EachOnceIff`,
  `SentTwiceCase`).
- A group on a matching wildcard filter is sent one copy per member, not one (`GroupOnceIff`, `WildcardGroupCase`).
- A retry limit above 127 never dead-letters, because the counter is 8 bits wide (`DeadLetterReachableIff`).
- A NACKed message comes back only to a subscription that names its topic and has no further prefix. A wildcard
  subscriber is sent its own filter as a topic instead, and the dead letter names the filter too
  (`MessageComesBackIff`, `WildcardRetryCase`, `LostRetryCase`).
- Under a wildcard subscription messages of different topics with the same offset share a retry counter
  (`TellsApartIff`, `SharedCounterCase`).
- Publishers that overtake each other between logging and drawing an offset can cost a reconnecting subscriber a
  message (`OwnMessageIff`, `OvertakingLosesMessage`); a failed log write can cost it an offset (`NoGapIff`,
  `FailedWriteLeavesGap`).
- A batch received from a peer is forwarded again, so in a mesh of two connected nodes it circulates for ever
  (`DrainsIff`, `EndlessRun`).
- A topic with a second prefix is read as another one at a peer (`RemoteSeesIff`, `UnsettledTopic`), and a TTL in the
  payload does not reach it, or a second one does in its place (`RemoteExpiryIff`, `LostTTLCase`, `SecondTTLCase`).
- A topic ending in `:group` or `:durable`, or a consumer called `group`, is misread in a subscription
  (`SubscriptionRecoveredIff`, `MisreadGroup`).
- A merged extension block of more than 1024 bytes makes a frame that peers reject (`MergedFrameAcceptedIff`,
  `MergedTooLongCase`).
- A compressed frame whose extensions hold, behind whole entries, one of another type that runs past the block makes
  the broker panic when it strips the compression entry (`DecompressFrame`, `OverrunningEntryCase`).
- A batch passes frames on as they came, so subscribers see the stream, the mesh bit and the topic prefix of the
  publisher, and no TTL applies (`SameMessageIff`).
- A rotation onto a leftover temporary file keeps its records, and a torn record there swallows the first one rewritten
  (`HarmlessIff`, `HarmlessNeeds`, `TornLeftoverCase`).
- A log record longer than the replay buffer stops the replay for ever (`ReplayEndsIff`, `WritableFrameStalls`).
- The "unread buffer size exceeded" teardown can happen only with a limit below the header size (`RunStreamReadLoop`).

## Model

| member | source | states |
|---|---|---|
| Ownership.NeverEarly | internal/broker/msg_ref.go:97-134 | Over every interleaving of publishers, batches, overflows, fetches, flushes, drains and backfills: whatever a queue, an accumulator, a writer or a publisher holds is live and its buffer has not gone back to the pool |
| Ownership.NeverTwice | internal/broker/msg_ref.go:111-134 | Over a whole run the list of buffers handed back only grows and never names a buffer twice |
| Ownership.CountsExact | internal/broker/msg_ref.go:39-134 | In every reachable state a reference counter equals its holders plus its live children, and is positive |
| Ownership.BatchParentCount | internal/broker/router.go:1247-1366 | A batch parent counts its publisher's one hold plus its live children, no queue or writer holds it, and its buffer is still out |
| Ownership.PublishLosesNothing | internal/broker/router.go:990-1052 | Without backfill no reference leaks: publishers and subscriber slots account for every one |
| Ownership.QuiescentReturnsAll | internal/broker/msg_ref.go:111-134 | Once nobody holds anything no reference is left and every buffer ever wrapped has come back |
| Ownership.RunInv | internal/broker/router.go:597-722 | The ownership invariant holds in every state of every run |
| Ownership.StepInv | internal/broker/router.go:623-722 | Each of the sixteen kinds of step keeps the ownership invariant |
| Ownership.EnqueueNextInv | internal/broker/router.go:623-667 | Enqueueing hands the retained reference to the queue or gives back the reference the overflow policy drops, never both and never neither |
| Ownership.BackfillInv | internal/broker/router.go:548-560 | Backfill holds two references and gives the queue one; the other is kept for good, so nothing is freed early |
| Ownership.StepReturned | internal/broker/msg_ref.go:111-134 | No step takes a hand-back back |
| Ownership.PublishQueues | internal/broker/router.go:1074-1181 | Publishing to a subscriber with nothing queued takes the message, step by step, to its queue, with one reference left and the publisher idle again |
| Ownership.BatchQueues | internal/broker/router.go:1234-1366 | The same for a batch of one message: the child is in the queue and the parent lives by it alone |
| Ownership.QueuedComesBack | internal/broker/router.go:671-722 | From there, fetching, appending and flushing it, fetching and dropping it, or draining it each end with its buffer back and the slot as before |
| Ownership.PublishedIsLast | internal/broker/msg_ref.go:111-134 | The queue's reference to a published message is its last: giving it up hands back its buffer and undoes the publish |
| Ownership.BatchedIsLast | internal/broker/msg_ref.go:111-134 | So it is for a message of a batch, whose parent goes with it |
| RefHeap.ReleaseBalanced | internal/broker/msg_ref.go:111-134 | Releasing one held reference, cascade to the batch parent included, leaves every counter equal to its holders plus live children |
| RefHeap.ReleaseOnce | internal/broker/msg_ref.go:111-134 | Release keeps every buffer either owned by exactly one live reference or handed back exactly once, and loses none |
| RefHeap.AcquireBalanced | internal/broker/msg_ref.go:39-48 | Wrapping a buffer adds one reference held once |
| RefHeap.AcquireChildBalanced | internal/broker/msg_ref.go:56-67 | A batch child adds one hold of its own and one claim on its parent |
| RefHeap.RetainBalanced | internal/broker/msg_ref.go:97-101 | Retain adds exactly one holder |
| MessageRefs.MessageRef.AcquireMessageRef | internal/broker/msg_ref.go:39-48 | The object version does to the set of live references what the value version does |
| MessageRefs.MessageRef.AcquireChildMessageRef | internal/broker/msg_ref.go:56-67 | As above for a batch child: the child's frame, offset and expiry are set and the parent is retained |
| MessageRefs.MessageRef.Retain | internal/broker/msg_ref.go:97-101 | The counter of this object, and of no other, goes up by one |
| MessageRefs.MessageRef.Release | internal/broker/msg_ref.go:111-134 | A holder's Release is the value-level release, recursively through the parent, and leaves all counters exact for the remaining holders |
| MessageRefs.MessageRef.Decrement | internal/broker/msg_ref.go:111-115 | A reference whose counter reaches zero stops being live, any other counts one less |
| MessageRefs.MessageRef.HandBack | internal/broker/msg_ref.go:125-129 | The buffer goes back to the pool, once |
| MessageRefs.MessageRef.Recycle | internal/broker/msg_ref.go:118-132 | Clearing a dead reference for reuse touches no live one |
| MessageRefs.MessageRef.BecomeChild | internal/broker/msg_ref.go:56-67 | A pooled object becomes a live child that owns no buffer |
| Routing.SubscribeExact | internal/broker/router.go:356-404 | Subscribe keeps the topic index, the wildcard list and every group snapshot equal to what a scan of the slots gives |
| Routing.DeactivateExact | internal/broker/router.go:1371-1397 | Disconnecting a subscriber keeps all three indexes exact |
| Routing.UnsubscribeExact | internal/broker/router.go:1400-1426 | Unsubscribing a stream keeps all three indexes exact |
| Routing.DeactivateGone | internal/broker/router.go:1371-1397 | A disconnect makes that slot inactive and no other, and changes no stream, topic or group of a slot |
| Routing.UnsubscribeGone | internal/broker/router.go:1400-1426 | Unsubscribing makes exactly the slots of the stream inactive |
| Routing.DispatchExact | internal/broker/router.go:1031-1048 | A publish moves only group counters and keeps the indexes exact |
| Routing.HistoryExact | internal/broker/router.go:356-404 | The indexes are exact after every history of subscribes, unsubscribes, disconnects and publishes |
| Routing.WhoIsThere | internal/broker/router.go:356-404 | After every history the slots are the subscriptions it made, in order, and those are active that were neither unsubscribed with their stream nor disconnected since |
| Routing.TargetsAreScan | internal/broker/router.go:965-1049 | With exact indexes, the slots a publish enqueues to are the naive scan: active ungrouped slots on the topic, active slots with a matching filter, one active member of each group that has any |
| Routing.GroupPicks | internal/broker/router.go:1031-1048 | The picks are active members of their groups, one per group, and no group with an active member is left out |
| Routing.PublishReachesScan | internal/broker/router.go:965-1049 | After every history a publish reaches exactly the scan |
| Deliveries.PublishSends | internal/broker/router.go:1074-1181 | A publish enqueues its message to the scan's recipients in order at its priority under the topic's next offset; every other queue and every other topic's offset stays as it was |
| Deliveries.DispatchSends | internal/broker/router.go:1124-1172 | What all publish paths share: recipients of the scan, next offset, given level, one push per copy, no other queue touched, and the slots noted for disconnection are those whose queue has no room for their copies |
| Deliveries.BatchSends | internal/broker/router.go:1255-1338 | A sub-frame that parses is sent in the bytes it came in, without an expiry, to the recipients of its topic at its priority |
| Deliveries.LevelIs | internal/broker/router.go:1079-1084 | The level of a frame is that of its first non-empty priority entry when this is 0 to 3, and 2 otherwise or without extensions |
| Deliveries.SentAtLevel | internal/broker/router.go:1079-1136 | Published alone or in a batch, a frame is delivered at the level its extension entries give |
| Deliveries.PublishDisconnects | internal/broker/router.go:1172-1221 | After a publish a slot is active exactly when it was and the publish did not overflow it under the disconnect policy |
| Deliveries.BatchDisconnects | internal/broker/router.go:1296-1338 | A batch notes a slot exactly when one of its sub-frames overflows it |
| Deliveries.BatchEndGone | internal/broker/router.go:1340-1344 | and exactly the slots noted are inactive at its end |
| Deliveries.KthOffset | internal/broker/router.go:893-907 | After any run, the next message of a topic is delivered under the number it has among all messages of the topic, published singly or in batches, counted from 1 |
| Deliveries.KthOffsetInBatch | internal/broker/router.go:1267-1268 | The same for each sub-frame of a batch, the ones before it counted |
| Deliveries.RunDraws | internal/broker/router.go:893-907 | The last offset drawn for a topic is the number of its messages |
| Deliveries.LeaveStops | internal/broker/router.go:1400-1426 | Once a stream has unsubscribed, no publish on any topic is sent to a slot of it, every active slot of another stream stays active, and nothing queued, sent or counted changes |
| Deliveries.JoinServed | internal/broker/router.go:356-404 | A new subscriber outside any group is sent every message of its topic and every message its filter matches; what the others are sent stays as it was |
| Deliveries.JoinGrouped | internal/broker/router.go:369-383 | A new member becomes the last of its group, which goes on being sent one copy |
| Deliveries.RecipientsActive | internal/broker/router.go:1128-1170 | Only active slots are sent to |
| Deliveries.EnqueueAllSends | internal/broker/router.go:1128-1170 | Enqueueing to a list of slots pushes once per occurrence into the queue of that level and leaves all others |
| Deliveries.DoGood | internal/broker/router.go:1371-1426 | Every operation on the router keeps the indexes exact and four queues per slot |
| Deliveries.RunGood | internal/broker/router.go:356-404 | After every run of subscribes, unsubscribes, publishes and batches, overflow disconnects included, the indexes are exact and every slot has its four queues |
| Deliveries.RunPublishReachesScan | internal/broker/router.go:1074-1181 | After every such run one more publish is sent to the scan's recipients and to nobody else |
| Deliveries.SentTo | internal/broker/router.go:1000-1049 | How often a publish is sent to a slot: once for its own exact subscription, once for its matching filter, and once if its group picks it |
| Deliveries.GroupShare | internal/broker/router.go:1011-1049 | How many copies the active members of a group are sent together: one each when the group's topic is a filter that matches, and one more when the message was published to that very topic |
| Deliveries.GroupOnceIff | internal/broker/router.go:1011-1049 | A group is sent a message at most once exactly when its topic is not a matching filter, or it has no active member, or it has one and the message was published to another topic |
| Deliveries.WildcardGroupCase | internal/broker/router.go:1011-1028 | Both members of a group on + are sent a message published to x |
| Deliveries.EachOnceIff | internal/broker/router.go:1000-1049 | No subscriber is sent a message twice exactly when the published topic is not itself a wildcard filter that an active subscriber gave |
| Deliveries.SentTwiceCase | internal/broker/router.go:1000-1028 | A subscriber of + is sent a message published to + twice |
| Fairness.RoundRobinFair | internal/broker/router.go:1031-1048 | While a group keeps its members and its counter does not wrap, over any run of publishes, peer publishes and batches, with other subscribers coming, going and being disconnected, each of n members is sent k/n of the k messages of its topic by the group's turn, rounded down or up, and all k once more if the topic is itself a filter |
| Fairness.RunServes | internal/broker/router.go:1153-1170 | Over such a run the group's counter is k on and a member has been sent what its place in the rotation gives |
| Fairness.OpServes | internal/broker/router.go:1316-1333 | The same for one operation, a batch with its deferred disconnects included |
| Fairness.DispatchServes | internal/broker/router.go:1031-1048 | One message through the dispatch that all publish paths share reaches the member whose turn it is and moves the counter by one |
| Fairness.MemberServed | internal/broker/router.go:1031-1048 | How often one message reaches a given member |
| Fairness.EmptyGroupWaits | internal/broker/router.go:1031-1048 | A group without members keeps its counter while messages pass it by |
| Fairness.PickIsTarget | internal/broker/router.go:1316-1333 | The member picked for a group is among the slots the publish enqueues to |
| Fairness.WindowFair | internal/broker/router.go:1031-1048 | Any window of k consecutive counter values meets each residue modulo n k/n times, rounded down or up |
| RouterObject.Router.constructor | internal/broker/router.go:287-308 | A new router has an empty table with exact indexes |
| RouterObject.Router.Subscribe | internal/broker/router.go:335-404 | A malformed payload changes nothing and reports why; any other adds one slot and updates the indexes as specified, which stay exact |
| RouterObject.Router.AddSlot | internal/broker/router.go:356-404 | One slot is appended to every array and entered in the indexes its topic and group call for |
| RouterObject.Router.JoinGroup | internal/broker/router.go:369-383 | The group of that name on the topic is found or made, never doubled, and its snapshot rebuilt |
| RouterObject.Router.ScanMembers | internal/broker/router.go:469-477 | The active slots of the topic and group, in slot order |
| RouterObject.Router.RebuildGroup | internal/broker/router.go:469-477 | The snapshot of the group becomes the active members found by scanning the slots |
| RouterObject.Router.DisconnectSubscriber | internal/broker/router.go:1371-1397 | That slot and no other goes inactive and its group forgets it; indexes stay exact |
| RouterObject.Router.Unsubscribe | internal/broker/router.go:1400-1426 | A slot is active afterwards exactly when it was and belongs to another stream; indexes stay exact |
| RouterObject.Router.NextTopicOffset | internal/broker/router.go:893-907 | The next offset of the topic, counting from 1, no other topic touched |
| RouterObject.Router.EnqueueToSubscriber | internal/broker/router.go:623-667 | One bounded queue is pushed to under the policy, and an overflow under disconnect is remembered |
| RouterObject.Router.DispatchExactly | internal/broker/router.go:1128-1136 | Enqueues to the active slots of the topic index, in order |
| RouterObject.Router.DispatchWild | internal/broker/router.go:1138-1151 | Then to the active wildcard slots whose filter matches |
| RouterObject.Router.DispatchGroups | internal/broker/router.go:1153-1170 | Then to one member of each group, whose counters go up by one |
| RouterObject.Router.DispatchMessage | internal/broker/router.go:1128-1170 | The three loops together enqueue to the specified targets in order |
| RouterObject.Router.PublishLocal | internal/broker/router.go:1074-1181 | Too long a payload is refused and leaves everything as it was; otherwise the new state is the specified publish and the indexes are exact |
| RouterObject.Router.PublishBatch | internal/broker/router.go:1234-1345 | The same for a batch: each well-formed sub-frame is dispatched, malformed ones are skipped, overflowed subscribers go at the end |
| RouterObject.Router.PublishSub | internal/broker/router.go:1255-1338 | One sub-frame of a batch |
| RouterObject.Router.DisconnectEach | internal/broker/router.go:1340-1344 | Each overflowed subscriber is disconnected, in order, and the indexes stay exact |
| Publishing.BatchRefinesSequence | internal/broker/router.go:1234-1338 | Publishing the concatenation of any frames as a batch gives the same recipients, priorities, offsets, group counters and queue occupancy as publishing each in order, unless the batch disconnects somebody |
| Publishing.SameBytesIff | internal/broker/router.go:1255-1314 | A batch passes a frame on in the bytes a single publish would write exactly when it is a plain publish on stream 0 without the mesh bit and with no prefix on its topic |
| Publishing.SameMessageIff | internal/broker/router.go:1255-1338 | A subscriber gets the same bytes, offset and expiry from a batch as from a single publish exactly when, besides, its priority sets no expiry or one that comes to none |
| Publishing.BatchEqualsSequence | internal/broker/router.go:1234-1338 | For such frames a batch that disconnects nobody leaves the very state that publishing them in order does, every queued message included |
| Publishing.DropPoliciesKeepAll | internal/broker/router.go:1184-1221 | Under the two drop policies no batch disconnects anybody |
| Publishing.PiecesOfConcat | internal/protocol/frame.go:346-359 | The batch parser cuts a concatenation of frames back into those frames |
| Publishing.PiecesAre | internal/protocol/frame.go:346-359 | The sub-frames of any batch are whole frames one after another from its start, and what is left starts no frame |
| Publishing.MalformedSkipped | internal/broker/router.go:1255-1259 | A sub-frame that does not parse is as if it were not there; the ones around it are published |
| Queues.QueueTable.Enqueue | internal/broker/router.go:623-667 | Behind the lazily acquired channel the level behaves as one always-present bounded queue; nothing else changes; an inactive slot takes nothing |
| Queues.QueueTable.Send | internal/broker/router.go:1184-1221 | The send and the three overflow policies are the push of the bounded queue |
| Queues.QueueTable.Fetch | internal/broker/router.go:671-709 | The oldest message of the highest non-empty priority, or none when all four levels are empty; a channel that runs empty goes back to the pool |
| Queues.QueueTable.Drain | internal/broker/router.go:711-722 | All messages of the slot come out, level by level in order, and the slot owns no channel afterwards |
| Queues.QueueTable.DrainLevel | internal/broker/router.go:711-722 | One level: its messages come out and its channel goes back |
| Queues.QueueTable.GetQueueFromPool | internal/broker/router.go:311-313 | The channel is empty and belongs to no slot |
| Queues.QueueTable.ReturnQueueToPool | internal/broker/router.go:315-331 | Messages left in the channel are released in order before it is pooled, and no other queue is touched |
| Queues.QueueTable.constructor | internal/broker/router.go:287-308 | All queues start empty |
| Queues.QueueTable.Subscribe | internal/broker/router.go:352-366 | A new slot starts with empty queues and disturbs none |
| Fifo.PushConserves | internal/broker/router.go:1184-1221 | Under every policy what was queued and what came in is what is queued and what was given up |
| Fifo.KnownLevel | internal/broker/router.go:623-667 | A priority that is none of the four is the default one, 2 |
| Fifo.DropOldestKeepsNewest | internal/broker/router.go:1184-1221 | Any run of messages into a drop_oldest queue leaves the newest queueSize of them, in order |
| Fifo.DropNewestKeepsEarliest | internal/broker/router.go:1184-1221 | A drop_newest queue keeps the earliest |
| Writer.SubscriberWriter.Run | internal/broker/router.go:728-889 | Over any events, the stream holds exactly the frames of the unexpired messages in fetch order, each once, in writes of whole frames, and for a subscriber outside any group just as they were queued; after the first failed write nothing more is written; every fetched reference has been given up once; and the NACKs counted are those of offsets among the last 256 cached, in order |
| Writer.SubscriberWriter.Flush | internal/broker/router.go:597-619 | One write of everything accumulated, references released whether or not it succeeds, accumulator empty after |
| Writer.SubscriberWriter.ReleaseAll | internal/broker/router.go:609-617 | The references are released one by one, in order |
| Writer.SubscriberWriter.AppendFrame | internal/broker/router.go:850-875 | A frame that fits is only appended; flushing before an overflow and after a full batch keeps order, and no batch at or over the size is left waiting |
| Writer.SubscriberWriter.Deliver | internal/broker/router.go:807-880 | Expired and empty messages are released unsent; any other is cached under its delivery offset and accepted once |
| Writer.SubscriberWriter.React | internal/broker/router.go:807-889 | One turn of the loop for a message, a timer or a NACK |
| Writer.SubscriberWriter.ReactAll | internal/broker/router.go:807-889 | All events in turn, up to the first failed write |
| Writer.SubscriberWriter.HandleNack | internal/broker/router.go:758-805 | A NACK of an offset no longer cached changes nothing; any other is counted under its topic, and the retry or the dead letter is published through the router |
| Writer.SubscriberWriter.constructor | internal/broker/router.go:580-592 | A new writer holds nothing |
| Writer.EmptyTogether | internal/broker/router.go:597-605 | The accumulator's buffer is empty exactly when its list of references is |
| Writer.CoherentAppend | internal/broker/router.go:850-875 | A write is whole frames, and longer than the batch size only when it is a single frame |
| Writer.FlatConcat | internal/broker/router.go:597-619 | The bytes of the writes are the frames one after another |
| Writer.FrameCache.StoreFrame | internal/broker/router.go:745-756 | The cache holds exactly the last offsets inserted, at most 256, each once, its key list equal to its domain; an offset already there keeps its place |
| Writer.NackDesk.Count | internal/broker/router.go:766-805 | The counter is bumped, the retry or dead letter published to the router's subscribers, and the counter dropped with the dead letter |
| Writer.RetrySeenUnderOriginalOffset | internal/broker/router.go:824-848 | A group member receives a retry with the original offset at the end of its payload |
| Writer.AloneUnchanged | internal/broker/router.go:835-848 | A subscriber outside any group receives the frames as they were queued |
| Writer.GroupedSuffix | internal/broker/router.go:835-848 | A group member receives any frame with the offset it is delivered under behind its payload, and it parses to that |
| Writer.WrittenIff | internal/broker/router.go:808-816 | A message is written exactly when it is fetched before its priority's TTL has run out, or, without one, the TTL of its payload; a TTL that ends at or before time 0, and none, never run out |
| Nacks.NacksConverge | internal/broker/router.go:758-805 | For a limit up to 127, the NACKs of each key, a subscription topic and an offset, equal the limit times its dead letters plus its counter, the counter is below the limit, and every NACK retried or dead-lettered, whatever other keys are NACKed in between |
| Nacks.NeverDeadAbove127 | internal/broker/router.go:766-769 | A limit above 127 is never reached, because the 8-bit counter wraps |
| Nacks.DeadLetterReachableIff | internal/broker/router.go:758-805 | Enough NACKs of one key dead-letter it exactly when the limit is at most 127 |
| Nacks.NackPublishes | internal/broker/router.go:766-804 | What a NACK publishes is what it is booked as, a retry or a dead letter |
| Nacks.EveryPthIsDead | internal/broker/router.go:766-804 | Whatever else is NACKed in between, a NACK publishes the dead letter exactly when it is one of its key's every p-th, for a limit p up to 127, and the retry otherwise |
| Nacks.RetryKeepsOffset | internal/broker/router.go:824-831 | A retry is delivered under the offset that was NACKed, whatever offset its own publish drew |
| Nacks.DeliveryOffsetIs | internal/broker/router.go:824-831 | A delivery goes under its own offset unless its extensions carry a retry entry of eight bytes, and then under that one |
| Retries.RetryTopicIff | internal/broker/router.go:783-789 | A retry is published to the subscription's topic exactly when that topic has no further prefix to strip |
| Retries.RetryReaches | internal/broker/router.go:783-789 | Then it reaches every active ungrouped subscriber of the topic and one active member of each group there |
| Retries.RetryMisses | internal/broker/router.go:1541-1547 | Otherwise it reaches no subscriber of the topic at all, grouped, ungrouped or by wildcard |
| Retries.RetryReachesIff | internal/broker/router.go:783-789 | The retry reaches some active subscriber of the subscription's topic exactly when that topic has no further prefix |
| Retries.DeliveredIsReceived | internal/broker/router.go:1000-1049 | Whoever is sent a message has a subscription to its topic or a filter that matches it |
| Retries.MessageTopicIff | internal/broker/router.go:758-789 | A retry is published to the topic of the message NACKed exactly when the subscription is to that very topic, without a further prefix, because the cache holds the subscription's text |
| Retries.MessageComesBackIff | internal/broker/router.go:758-805 | A NACKed message comes back as a message of its topic to some active subscriber with that subscription exactly when the subscription names the topic and has no further prefix |
| Retries.DeadLetterNamesIff | internal/broker/router.go:791-804 | A dead letter names the message's topic exactly when the subscription is to that topic |
| Retries.RetryPriorityIff | internal/broker/router.go:775-789 | A retry keeps the priority of the message exactly when that is the default one |
| Retries.TellsApartIff | internal/broker/router.go:758-771 | The key of a NACK tells which message it was exactly when the subscription has no wildcard, or is a malformed filter that no topic matches; under any other filter, messages of different topics share counters and cache entries |
| Retries.WildcardRetryCase | internal/broker/router.go:758-805 | A subscriber of a/+ that NACKs a message a/x is sent a message a/+ and no other, and its dead letter goes to __dlq__a/+ |
| Retries.SharedCounterCase | internal/broker/router.go:758-805 | With a limit of two, NACKing the fifth message of a/x and the fifth of a/y once each under a/+ dead-letters |
| Retries.RetrySent | internal/broker/router.go:783-789 | Publishing the retry sends it to each recipient in a frame known by the NACKed offset, so the next NACK counts against the same key |
| Retries.LostRetryCase | internal/broker/router.go:783-789 | A subscription to topic:topic:x is for topic:x, and its retries are published to x |
| Retries.DeadLetterTopic | internal/broker/router.go:791-804 | A dead letter always goes to the topic with the __dlq__ prefix |
| Retries.UnsettledMisses | internal/broker/wildcard.go:9-51 | A topic with a prefix left is not matched, as a filter, by the topic it is read as |
| Backfill.RunBackfillWorker | internal/broker/router.go:530-567 | Exactly the topic's records numbered above the start and up to the end are sent, in order, each under its number and with the expiry of its own replay |
| Backfill.ResentIs | internal/broker/router.go:536-560 | A record of a plain publish of the topic, and no other, is sent again: as the frame its live subscribers were given, under its number, with the TTL of its payload counted anew |
| Backfill.BackfillSends | internal/broker/router.go:530-567 | Over a log of any frames, the i-th frame sent is that of the (start+i)-th plain publish of the topic, under that number |
| Reconnect.NoGap | internal/broker/router.go:416-426 | In every interleaving of log, draw, dispatch, register, read-latest and backfill steps of a broker started on any log, if no log write failed: once the backfill has ended every offset above the requested one has been enqueued, from the log up to latest, live beyond it |
| Reconnect.NoGapIff | internal/broker/router.go:530-567 | With log writes that may fail: an offset above the requested one and up to latest has been enqueued exactly when there were that many records by the end of the backfill, failed writes not counted, or it was dispatched after the subscriber registered; one beyond latest, as soon as it is dispatched |
| Reconnect.StartUp | internal/transport/broker.go:155-191 | Publishing the records found at start-up again, in order, leads to the state in which listening starts |
| Reconnect.FailedWriteLeavesGap | internal/transport/broker.go:523-529 | An interleaving in which a failed log write, which is ignored, leaves an offset out |
| Reconnect.StepInv | internal/broker/router.go:530-567 | Each step keeps the invariant that fixes what the subscriber has been given |
| Reconnect.RunsInv | internal/broker/router.go:530-567 | So does every run |
| Reconnect.LogCoversOffsets | internal/transport/broker.go:523-529 | If every message drawn has a record of its own, there are at least as many records as offsets drawn |
| Reconnect.NothingElse | internal/broker/router.go:551-553 | Only offsets that were drawn turn up, and only those above the requested one come from the log |
| Reconnect.OwnMessageIff | internal/broker/router.go:548-560 | The message that comes under an offset is the one published with it exactly when it was dispatched live or its record stands at that place in the log the backfill read |
| Reconnect.NoMessageLost | internal/broker/router.go:530-567 | Started on any log, if no log write fails and publishers do not overtake each other between logging and drawing, every message above the requested offset arrives under its own offset |
| Reconnect.OvertakingLosesMessage | internal/broker/router.go:893-907 | An interleaving in which a publisher overtakes another and the subscriber never gets a message, though no offset is missing |
| StreamReader.RunStreamReadLoop | internal/transport/broker.go:346-373 | For every byte stream and every chunking: the bytes read are those of the frames routed, each admitted by the gate after the ones before it, and then bytes that wait for more, or that are refused, the latter exactly when the loop fails; this is what a one-shot decoder finds; the buffer stays within max(readBufSize, maxBufSize), and the size teardown needs a limit below a header that the initial buffer does not exceed, where it is then certain |
| StreamReader.ReadTurn | internal/transport/broker.go:346-373 | One turn keeps the buffer in step with the one-shot decoder |
| StreamReader.ReadAndDispatch | internal/transport/broker.go:346-373 | A read and its dispatch keep the buffer in step with the one-shot decoder |
| StreamReader.DrainAndMaybeGrow | internal/transport/broker.go:378-396 | A full buffer is drained, else doubled, else given up, the last exactly when the limit is below a header and full |
| StreamReader.GrowBuffer | internal/transport/broker.go:399-407 | A new buffer of twice the size, at most the limit, with the same bytes |
| StreamReader.DispatchFrames | internal/transport/broker.go:449-465 | Routes the frames the one-shot decoder finds and leaves its remainder at the front of the buffer |
| StreamReader.Prepare | internal/transport/broker.go:474-530 | A frame is taken only when all of it is there, within the limit, as its serialization, and the gate admits it |
| StreamReader.DecodeExplained | internal/transport/broker.go:449-530 | The bytes are those of the frames found, each carriable, within the limit and admitted, and then bytes that wait, or, if decoding failed, bytes that are too many, do not parse or are refused by the gate |
| StreamReader.DecodeUnique | internal/transport/broker.go:449-530 | There is no other such account of the bytes, so whatever explains them is what is decoded |
| StreamReader.RoutedAdmitted | internal/transport/broker.go:509-518 | Every frame routed was admitted after the frames before it |
| StreamReader.RefusedStops | internal/transport/broker.go:516-518 | A frame the gate refuses ends the stream and is not routed |
| StreamReader.MalformedStops | internal/transport/broker.go:474-500 | So does a whole frame that does not parse |
| StreamReader.DecodeSplit | internal/transport/broker.go:449-465 | Decoding may stop anywhere and go on from the bytes left over |
| StreamReader.DecodeWires | internal/transport/broker.go:449-496 | A stream of admitted frames and a piece of one more decodes to exactly those frames |
| StreamReader.PendingIsShort | internal/transport/broker.go:474-496 | What is left over is shorter than the limit, or shorter than a header |
| StreamReader.ReadPrefix | internal/transport/broker.go:346-373 | What has been routed is a prefix of what the whole stream decodes to |
| LogReplay.Replay | internal/aal/aal.go:138-191 | Whatever the file and the chunking, the loop with its sliding buffer does what the specified replay does: it reaches the end of the file, or stands still with a full buffer |
| LogReplay.WholeLogReplays | internal/aal/aal.go:138-191 | For every read chunking, records that fit the 64 KB buffer with any proper prefix of one more behind them replay to exactly the complete records in order, and the replay ends |
| LogReplay.ReplayEndsIff | internal/aal/aal.go:162-191 | The replay of any log ends exactly when every record fits the buffer and the torn one at the end does not fill it; else it hands over the records before the first that does not fit and never ends |
| LogReplay.ReplayLog | internal/aal/aal.go:138-191 | What the replay of any log comes to, chunking or not |
| AppendLog.DecodeReplayChunk | internal/aal/aal.go:217-249 | One chunk: records in order, implausible lengths skipped by resynchronizing, undecipherable records passed over, an incomplete one left |
| AppendLog.ResyncToNextRecord | internal/aal/aal.go:256-274 | The next position that looks like a record with a frame in it, or the end of the scan; always ahead |
| AppendLog.ResyncIsFirst | internal/aal/aal.go:256-274 | Resynchronizing stops at the first position behind, within 1024 bytes, that looks like a whole record with a frame in it, or at the end of those |
| AppendLog.GarbageSkipped | internal/aal/aal.go:217-274 | Decoding finds its way back: behind bytes that start with no length and hold nothing that looks like a record it goes on at the first whole record with a frame in it, if within 1024 bytes, and decodes all that follow |
| AppendLog.ChunkOfRecords | internal/aal/aal.go:217-249 | Whatever part of some records and what follows is buffered, the complete records are decoded, and if those are all, decoding goes on behind them |
| AppendLog.ChunkOfLog | internal/aal/aal.go:217-249 | Of a log with a torn record at its end exactly the complete records in the buffer are decoded |
| LogFile.WrittenReplays | internal/aal/aal.go:88-131 | The bodies written for any frames decode to those frames, plain or encrypted |
| LogFile.NoncesDistinct | internal/aal/aal.go:100-106 | No two records of a session are sealed with the same nonce |
| LogFile.NonceIs | internal/aal/aal.go:100-106 | A nonce is the session's prefix and the counter, most significant byte first |
| LogFile.LayoutIs | internal/aal/aal.go:88-131 | A record is four bytes of length, then the frame, or the nonce and the ciphertext |
| LogFile.Log.WriteFrame | internal/aal/aal.go:88-131 | The record appended is the length, then the frame or its nonce and ciphertext; a frame too long for the pool buffer panics and writes nothing |
| LogFile.Log.WriteAll | internal/aal/aal.go:313-315 | Writing frames one by one appends their records in order |
| LogFile.Log.Rotate | internal/aal/aal.go:294-335 | A file below the limit is left alone; one whose replay ends is replaced by what the temporary file held followed by its frames rewritten; one whose replay stalls stays, and the call never returns |
| LogFile.Log.constructor | internal/aal/aal.go:45-84 | A log opens on what the file holds, with its nonce counter at zero |
| LogFile.ReplayedFits | internal/aal/aal.go:217-249 | Whatever a file holds, the frames it replays to can be written again and replayed again |
| LogRotation.WrittenLogReplays | internal/aal/aal.go:88-191 | A log written from any frames that fit the replay buffer replays to those frames, for every chunking |
| LogRotation.WritableFrameStalls | internal/aal/aal.go:162-167 | A plain frame of 65533 bytes is taken by the writer and stalls the replay |
| LogRotation.RotatePreservesReplay | internal/aal/aal.go:294-335 | Onto whole records, the rotated log replays to those and then to all the old one did; so to what the old one did exactly when the leftover replays to nothing |
| LogRotation.TornLeftoverLosesFrame | internal/aal/aal.go:305-319 | Onto a torn record whose length is there, the frame rewritten behind it is not among what replays, for every chunking, if its record has another length; onto a shorter piece, if its length is not divisible by 256 and it does not start with the frame magic or is read byte by byte |
| LogRotation.TornLeftoverCase | internal/aal/aal.go:305-319 | A leftover of four bytes that replays to nothing turns the frame behind it into another |
| LogRotation.HarmlessIff | internal/aal/aal.go:294-335 | A leftover does no harm, whatever frames the log holds and however it is read, exactly when it has no torn record and its whole ones replay to nothing |
| LogRotation.HarmlessNeeds | internal/aal/aal.go:294-335 | Whatever bytes any number of interrupted rotations left, they do harm to some rotation unless replaying them byte by byte hands over nothing and leaves nothing waiting in the buffer |
| LogRotation.ZeroLengthCase | internal/aal/aal.go:256-274 | Four zero bytes pass that, and still cost the record behind them when its first byte is read along with them |
| Frames.ParseWire | internal/protocol/frame.go:85-162 | Parsing a serialized frame, whatever follows it, gives back its fields |
| Frames.WireParse | internal/protocol/frame.go:85-162 | An accepted buffer starts with the serialization of the frame returned, its first totalLen bytes |
| Frames.AcceptedIffWirePrefix | internal/protocol/frame.go:85-162 | A buffer is accepted exactly when some carriable frame's serialization is a prefix of it |
| Frames.SerializeFrame | internal/protocol/frame.go:190-248 | The buffer is the ten-byte header and the payload |
| Frames.PutHeader | internal/protocol/frame.go:190-212 | The ten header bytes: magic, command, stream and length, little-endian |
| Frames.HeaderFields | internal/protocol/frame.go:85-110 | The fields of a header are read back from their places |
| Frames.SerializeFrameWithExtensions | internal/protocol/frame.go:251-288 | The same with the extension bit set and the block before the payload |
| Frames.SetForwarded | internal/protocol/frame.go:165-178 | Setting the mesh bit leaves the opcode and the extension bit |
| Frames.ParseBatchFrame | internal/protocol/frame.go:323-342 | A whole frame at the offset, or none can be there |
| Frames.ParseBatch | internal/protocol/frame.go:346-359 | Whole frames that concatenate to the batch; an error exactly when something that starts no frame is left |
| Frames.BatchSplitUnique | internal/protocol/frame.go:346-359 | There is only one way to cut a batch, so parsing a concatenation yields exactly the pieces |
| Frames.OffsetSuffixParses | internal/broker/router.go:837-848 | The frame with the group offset appended parses to the same frame with eight more payload bytes |
| Extensions.FindExtension | internal/protocol/extensions.go:116-151 | The loop computes the specified lookup on every block, well-formed or not |
| Extensions.FindFirstNonEmpty | internal/protocol/extensions.go:116-151 | On a well-formed block the lookup is the first non-empty entry of the type |
| Extensions.Decompose | internal/protocol/extensions.go:116-151 | Any bytes are whole entries and then an overhang |
| Extensions.ScanIgnoresOverhang | internal/protocol/extensions.go:116-151 | On any bytes the lookup is the first non-empty whole entry of the type, and never sees the overhang |
| Extensions.KeptIgnoresOverhang | internal/protocol/extensions.go:324-354 | On any bytes stripping keeps exactly the whole entries of other types |
| Extensions.StripExtension | internal/protocol/extensions.go:294-354 | On every block without spare capacity, as those of parsed frames are: the two passes compute the specified strip, or panic, exactly when an entry of another type runs past the end |
| Extensions.CountKeep | internal/protocol/extensions.go:302-320 | The first pass counts what every entry claims, without checking that it is there |
| Extensions.OverrunsIff | internal/protocol/extensions.go:324-354 | Stripping a type goes wrong exactly when whole entries are followed by one of another type that claims more bytes than are left |
| Decompression.DecompressFrame | internal/transport/broker.go:753-798 | When a frame is left alone, refused or inflated, that the stream's budget is never exceeded, and that it panics exactly when a usable size within the limits is announced, the payload inflates, and an entry of another type overruns the block |
| Decompression.AnnouncedIs | internal/transport/broker.go:757-768 | A well-formed block announces the size in its first non-empty compression entry when that has five bytes, names zstd and is not zero |
| Decompression.AdmittedIs | internal/transport/broker.go:769-783 | With a read buffer limit below 2^28, a size is admitted exactly when it is at most sixteen times that and the stream's budget covers it |
| Decompression.OverrunningEntryCase | internal/transport/broker.go:753-798 | A frame the parser takes, with a usable compression entry and an overrunning one behind it |
| Extensions.CopyKept | internal/protocol/extensions.go:324-354 | The second pass writes the length of what is kept and then exactly the entries kept, in order, or panics at the first entry that overruns |
| Extensions.StripIsFilter | internal/protocol/extensions.go:294-354 | On a well-formed block stripping is filtering the entry list, and nothing when none is left |
| Extensions.StripKeepsOtherLookups | internal/protocol/extensions.go:294-354 | Lookups of every other type are unchanged by stripping |
| Extensions.BuildMergedExtensionsWithCompression | internal/protocol/extensions.go:255-289 | The merged block as laid out in the buffer |
| Extensions.MergedIsSnoc | internal/protocol/extensions.go:255-289 | Merging appends the compression entry to the entry list |
| Extensions.MergeThenStrip | internal/protocol/extensions.go:255-354 | Merging and then stripping the compression entry restores a block that had none |
| Extensions.MergedFrameAcceptedIff | internal/protocol/extensions.go:255-289 | A frame with a merged block is accepted by the parser exactly when the existing block, whatever its entries, leaves seven bytes of the 1024-byte limit |
| Extensions.MergedTooLongCase | internal/protocol/extensions.go:255-289 | A block of 1018 bytes, which the parser takes, is merged into one it does not take |
| Extensions.PriorityRoundTrip | internal/protocol/extensions.go:156-186 | A priority entry is read back as the level it was built with |
| Extensions.PriorityOf | internal/protocol/extensions.go:156-166 | The level is always one of the four, whatever the block says |
| Topics.PublishSpellings | internal/broker/router.go:1541-1547 | The spellings T, topic:T, ttl:n:T and ttl:n:topic:T of a bare topic all publish to T, with the TTL of the last two |
| Topics.SubscriptionRecoveredIff | internal/broker/router.go:1454-1498 | topic:T[:group:G][:durable:C:N] registers exactly T, G, C and N if and only if no accidental marker arises where the parts meet |
| Topics.MisreadGroup | internal/broker/router.go:1454-1498 | The topic a:group with group g is registered as something else |
| Topics.GroupTaken | internal/broker/router.go:1465-1476 | The group part comes out whole unless the topic ends in :group, and then it is this other reading |
| Topics.DurableTaken | internal/broker/router.go:1478-1497 | The consumer and offset come out whole unless the topic ends in :durable |
| Topics.ConsumerCalledGroup | internal/broker/router.go:1465-1476 | A durable consumer called group is read as a group |
| Topics.PlainSubscription | internal/broker/router.go:1454-1484 | A topic without markers is registered as it stands |
| Topics.SettledIff | internal/broker/router.go:1541-1547 | Which topics are left as they are when read once more |
| Topics.TTLStripped | internal/broker/router.go:1509-1521 | A TTL prefix with a number is taken off and read |
| Topics.TTLKept | internal/broker/router.go:1509-1521 | A TTL prefix without a number in it is left on |
| Topics.NumbersRead | internal/broker/router.go:1512-1515 | Decimal numbers are read as themselves as far as 64 bits go, signed or not; a TTL beyond that is none, an offset beyond that the largest |
| Topics.OnlyNumbersRead | internal/broker/router.go:1492-1493 | Nothing but an optional sign and digits is a number |
| Topics.InvalidIff | internal/broker/router.go:1454-1461 | A subscription is refused exactly when it names no topic behind its prefix |
| Topics.DurableWithoutOffset | internal/broker/router.go:1478-1489 | A durable consumer without an offset starts at 0 |
| Wildcard.MatchWildcard | internal/broker/wildcard.go:9-51 | The two-index loop computes the recursive matcher on all patterns and topics |
| Wildcard.MatchIsLevelwise | internal/broker/wildcard.go:9-51 | For every filter well-formed by section 4.7.1 of MQTT 3.1.1 and every topic, matching is level by level on the slash-split levels, where # also matches the parent level and + any level but an empty last one |
| Slab.SizeClass.Acquire | internal/mem/slab.go:58-79 | The buffer handed out was not live and overlaps no live buffer, growth included; the free list and the live blocks still partition the arena |
| Slab.SizeClass.Release | internal/mem/slab.go:81-109 | Exactly that buffer stops being live; one from a replaced arena or of foreign origin is left alone |
| Slab.SizeClass.Grow | internal/mem/slab.go:32-56 | Replacing an exhausted arena changes no live buffer and leaves a free block |
| Slab.NewChain | internal/mem/slab.go:40-49 | The new next array threads all blocks in order and ends |
| Slab.SizeClass.LiveApart | internal/mem/slab.go:58-79 | No two live buffers share a byte, across arenas too |
| Slab.SizeClass.NoBlockLost | internal/mem/slab.go:58-109 | Free and taken blocks add up to the arena |
| Slab.SizeClass.constructor | internal/mem/slab.go:24-30 | A new class has nothing live |
| Slab.ClassFor | internal/mem/slab.go:127-138 | The smallest class that holds the request, none above 32 KB |
| Slab.ClassOfCapacity | internal/mem/slab.go:140-148 | The class is found again from the capacity alone, or none has it |
| Mesh.Forward | internal/cluster/cluster.go:238-270 | Every connected peer whose write goes through gets the frame with the forwarded bit, one packet each in the order of the peers, and nobody else does; the caller's buffer is as it was, short buffers are not sent |
| Mesh.ReachedIs | internal/cluster/cluster.go:238-270 | The nodes reached are those of the peers that can be written to, each once per place and in order |
| Mesh.ForwardedParses | internal/broker/router.go:984-998 | What is forwarded parses at every peer to a publish with the forwarded bit, the same extensions and priority and the topic the origin published to |
| Mesh.RemoteSeesIff | internal/broker/router.go:1065-1123 | Remote subscribers receive the same bytes as local ones exactly when the topic carries no further prefix, and never with the forwarded bit |
| Mesh.RemoteExpiryIff | internal/broker/router.go:1092-1098 | A message expires at the same time on both nodes exactly when its priority sets the expiry, or the peer finds the TTL of the payload again, or the TTL that only one node finds comes to no expiry |
| Mesh.LostTTLCase | internal/broker/router.go:1092-1098 | ttl:5:x expires after five milliseconds at the origin and never at a peer |
| Mesh.SecondTTLCase | internal/broker/router.go:1509-1521 | Of ttl:5:ttl:7:x the origin reads five milliseconds and a peer seven |
| Mesh.UnsettledTopic | internal/broker/router.go:1541-1547 | topic:topic:x is published as topic:x at the origin and as x at its peers |
| MeshRuns.RunLedger | internal/transport/broker.go:535-578 | In every run without batches, what has been shown plus what packets under way will show is one copy per client publish at its node and at each peer its forward reached; packets under way all carry the forwarded bit and cause no more |
| MeshRuns.ExactlyOnce | internal/transport/broker.go:563-570 | Once the links are empty each publish was shown once at its node and once for each place a node has among the peers that could be written to, counted frame by frame, and nothing else anywhere |
| MeshRuns.RelaysDrain | internal/transport/broker.go:563-570 | Without new client frames every arrival takes one packet off the links for good |
| MeshRuns.BatchesNeverDrain | internal/broker/router.go:1359-1364 | A batch packet once on a link is never off all of them while receiving nodes have peers to forward to |
| MeshRuns.EndlessRun | internal/transport/broker.go:571-576 | One batch from a client keeps two connected nodes forwarding to each other, never to themselves, for any number of steps |
| MeshRuns.DrainsIff | internal/transport/broker.go:563-578 | The links empty after as many arrivals as there were packets exactly when none of those was a batch |

## Left out

- QUIC, TLS, HTTP/3 and WebTransport, the gRPC admin service, tracing, metrics and configuration: I/O and library wrappers.
- zstd is an arbitrary function that may fail. The router does not use the frame that decompression gives, so `StreamReader` and the meshes are modelled without it.
- AES-256-GCM is a pair of functions where opening undoes sealing and adds or removes sixteen bytes.
- Topic hashing: tables are keyed by the topic itself, as if the hash were injective.
- Access control, quotas, label caps, reconnect back-off and DNS peer discovery: easy invariants beside the ones proved; authorization enters `StreamReader` as an arbitrary gate.
- Clocks and timers: expiry uses any clock value, a flush may happen at any point.
- Races inside one operation: slab operations, enqueue and each reference-count step are single steps; the free list's untagged compare-and-swap is not modelled.
- Memory reuse by address: buffers are told apart by the time they were acquired, and the runtime never places a new arena over a live buffer.
- Byte aliasing of batch children: counts and hand-back are proved, not which array the child's bytes lie in.
- The early return of a publish with no subscriber and no peer, which only skips work that has no effect.
- Durable offsets table, AckOffset, Close and the lookups by stream: single-branch bookkeeping.
- One object that carries the table, the channels and the reference counts at once: the table is in `Router`, the channels in `Queues`, the counts in `Ownership`.
- The int64 range of expiry times: a TTL too large for it would wrap in the code.
- RouterObject.Router.Subscribe: the durable offset it looks up or stores and the start of the backfill and writer goroutines are not in the contract; `Reconnect` and `Writer` take those up from there.
- LogReplay.Replay: claims for a log damaged in the middle only what one decoded chunk gives, `AppendLog.DecodeReplayChunk`; which frames survive there depends on the chunking. The handler never fails; one that does ends the replay with its error.
- AppendLog.DecodeReplayChunk: the handler never fails; one that does ends the chunk with its error.
- LogFile.Log.Rotate: the rewriting and renaming of files never fail.
- LogRotation.TornLeftoverLosesFrame: speaks of one record behind the torn one; how many more are lost depends on where decoding finds its way back.
- LogRotation.HarmlessIff: speaks of whole records and perhaps a torn one. For other bytes, such as several interrupted rotations leave, `LogRotation.HarmlessNeeds` gives one direction.
- LogRotation.HarmlessNeeds: is no equivalence, as `ZeroLengthCase` shows; what else such bytes need depends on where each chunking finds its way back.
- Slab.SizeClass.Release: takes a live buffer or one that is none of the current arena's, as the callers do; a second release of the same block is not modelled.
- Publishing.BatchRefinesSequence: leaves out bytes and expiry, which `SameMessageIff` and `BatchEqualsSequence` take up, and says nothing of a batch that disconnects a subscriber, which goes on being sent to until the batch ends.
- StreamReader.RunStreamReadLoop: the read buffer starts with length equal to capacity and at least one byte.
- Fairness.RoundRobinFair: excludes the wrap of the 64-bit group counter.
- Reconnect.NoGap: follows one subscriber on one topic with plain publishes; frames with an extension or mesh bit, batches, retries and dead letters draw offsets without a record that counts.
- Backfill.RunBackfillWorker: neither the cancellation by the subscriber's context nor the disconnect on overflow is modelled; the worker sends to a queue that takes everything.
- Writer.SubscriberWriter.HandleNack: the retry is published to local subscribers; its forwarding to peers is `MeshRuns`.
- Ownership.BackfillInv: keeps backfill's extra reference for ever, as the code does, so its buffers never return.
- MessageRefs.MessageRef.AcquireMessageRef: the object pool is modelled as objects with a zero counter, not as a pool that may forget them.
