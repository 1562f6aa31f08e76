# Verified model of XMQTT

XMQTT is an MQTT 3.1/3.1.1 broker written in Go. This project models four of its parts in Dafny and
proves what they are for.

**The byte ring** (`service/buffer.go`). One producer and one consumer share a power-of-two ring with
ever-growing cursors and a cached, possibly stale `gate`. `RingProtocol` is a step system in which the
two sides interleave freely: read a cursor, check the gate, refresh it, store one byte, publish, copy
one byte, show a view, commit. `RingBuffer` holds the methods of the Go type over a real array; each
method's effect is proved to be a run of the step system (`RingRuns`). `Framing` is the loop that cuts
packets off the ring, `Sending` the two-branch sender that encodes onto it, and `Exchange` connects the
output ring of one peer to the input ring of another.

**The ack queue** (`sessions/ackqueue.go` and the value-typed copy under `utils/surgemq`). `AckQueue` is
the growing ring with its packet-id map; `AckModel` is the ordered list it represents, with theorems
over every run. `Qos2Model` and `Qos2Receiver` are the QoS 2 receiver built on it (section 4.3.3 of
MQTT 3.1.1).

**The topic tries** (`topics/memtopics.go`). `SubscriptionNodes` and `RetainedNodes` are the nodes on the
heap, edited in place; `SubscriptionTrie` and `RetainedTrie` are the values they hold.
`SubscriptionTable` and `RetainedTable` are flat tables edited by the same calls, and the answers of
`SubscriptionMatch` and `RetainedMatch` are proved to be scans of those tables. `SubscriptionShape` says
which nodes the subscription trie has, and `Spelling` which topics share their levels. `MemTopics` puts it
together behind the provider's interface.

**The packet codec** (`utils/surgemq/message`). `Wire`, `PublishCodec`, `SubscribeCodec`,
`UnsubscribeCodec`, `ConnectCodec` and `AckPackets` give the bytes; `Encoders` are the encoders writing
into a slice; `PublishMessage` is a decoded PUBLISH whose fields are slices of the receive buffer, so
that setters write through. `Delivery` joins codec and framing.

Results that differ from what one might expect of the code:

- Clearing a retained topic can lose a retained parent topic, because pruning looks at children and
  not at the message. `RetainedTable.ClearKeepsOthersExactly` says on any trie when it does not, and
  `RetainedTable.ClearKeepsOthersInRun` says it of the history of calls.
- A retained topic that is refused at a bad level leaves nodes for the levels in front of it. After
  "a/b/$x" has been refused, clearing "a/b", which was never retained, succeeds and loses "a".
- UNSUBSCRIBE loses trailing topics when there are more than 2 + (length of the last topic) of them.
- Setting the QoS of a decoded QoS 1 or 2 PUBLISH to 0 in place turns the packet id into payload. Among
  all sequences of setters, exactly those that end with QoS 0 go wrong.
- A PUBLISH to the heartbeat topic is answered only with QoS 1 and only if its payload is a number; with
  QoS 2 it gets no PUBREC (`Qos2Model.HeartbeatWithoutPubrec`).
- A remaining length of five bytes can be taken for a negative number by the header decoder.
- A CONNECT with an empty user name under a set user name flag shifts the password into its place.
- For a packet id that is already queued, a PUBLISH with the DUP flag is reported as an error and one
  without it is not, the other way round than the comment beside it says; the queue is unchanged in
  both cases.
- A "#" in a subscription does not cover its parent level, in a retained-message query it does; section
  4.7.1.2 of MQTT 3.1.1 includes the parent in both.
- A group subscription is stored under an additional "+" level, because the separator in front of its
  topic is kept.
- An empty level that is followed by a separator reads as "+", and a trailing empty level vanishes. So
  the topics "a" and "a/" are one: retaining or clearing "a/" replaces or loses the message of "a".
  `Spelling.SameLevelsExactly` says which valid topics are one, and
  `RetainedTable.ClearKeepsMessagesExactly` and `RetainedTable.StoreKeepsMessagesExactly` say of any
  history when the messages of all other topics are kept. The filters "a//b" and "a/+/b" are one as well.

## Model

| member | source | states |
|---|---|---|
| RingProtocol.RingSafety | service/buffer.go:206-559 | In every interleaving from an empty ring, gate <= consumer cursor <= producer cursor <= consumer cursor + size; the bytes delivered are a prefix of the bytes written; every unread byte is still in its slot; a granted reservation is at most the ring. |
| RingProtocol.StepKeepsInv | service/buffer.go:206-559 | Each step of either side keeps the ring invariant, whatever the other side is in the middle of. |
| RingProtocol.FillSparesUnread | service/buffer.go:283-303 | A byte stored under a reservation lands in no slot that holds an unread byte, however stale the gate is. |
| RingProtocol.OversizedReservationNeverGranted | service/buffer.go:488-559 | A wait for more than the ring holds has no enabled way out. |
| RingProtocol.PublishNeverBlocks | service/buffer.go:472-486 | Committing at most what was reserved never finds the gate closed. |
| RingProtocol.CommitNeverRefused | service/buffer.go:422-452 | Committing at most what a view shows is always possible. |
| RingProtocol.ViewIsStream | service/buffer.go:313-416 | A view, wrapped or not, is the next stretch of the stream. |
| RingProtocol.ViewIsStable | service/buffer.go:313-452 | A view keeps its bytes under any number of producer steps. |
| RingRuns.WriteIsRun | service/buffer.go:283-303 | Reserving, storing all bytes and publishing is a run of the step system. |
| RingRuns.ReadIsRun | service/buffer.go:206-281 | Copying out and advancing the consumer cursor is a run of the step system. |
| RingRuns.CommitIsRun | service/buffer.go:422-452 | Showing a view and committing part of it is a run of the step system. |
| RingRuns.PutIsRun | service/buffer.go:458-470 | Encoding into reserved slots without committing is a run of the step system. |
| RingBuffer.Buffer.OverwriteIsRun | service/buffer.go:458-486 | Whatever an encoder writes into the reserved slots and nowhere else is a run of the step system. |
| RingBuffer.Buffer.New | service/buffer.go:80-110 | A ring is made exactly for size 0 (the default) and for powers of two of at least two read blocks. |
| RingBuffer.RingCopy | service/buffer.go:569-585 | The source ends up at consecutive slots modulo the length, and no other slot changes. |
| RingBuffer.Buffer.WaitForWriteSpace | service/buffer.go:488-559 | Space is granted exactly when unread bytes plus the request fit the ring and it is open; then the gate covers the reservation. |
| RingBuffer.Buffer.Write | service/buffer.go:283-303 | The stream grows by exactly the bytes given, or nothing changes. |
| RingBuffer.Buffer.WriteWait | service/buffer.go:458-470 | The slice starts at the producer's slot and is flagged when it stops at the end of the ring. |
| RingBuffer.Buffer.WriteCommit | service/buffer.go:472-486 | The stream grows by what the committed slots hold. |
| RingBuffer.Buffer.ReadFrom | service/buffer.go:136-170 | All that the reader gives until it fails is appended to the stream, and the ring is closed; for lack of a block of space the call stops with a prefix of it. |
| RingBuffer.Buffer.Feed | service/buffer.go:136-170 | While the reader has bytes to give they are appended in order, all of them unless a block of space is missing. |
| RingBuffer.Buffer.WriteTo | service/buffer.go:172-204 | The writer gets a prefix of the unread bytes, all of them if it does not fail; a block whose Write fails stays unread. |
| RingBuffer.Buffer.Read | service/buffer.go:206-281 | What is returned followed by what stays unread is what was unread; the count is the smallest of request, unread bytes and way to the end of the ring. |
| RingBuffer.Buffer.ReadPeek | service/buffer.go:313-368 | The view reads as the front of the unread bytes, as many as asked for or all there are. |
| RingBuffer.Buffer.ReadWait | service/buffer.go:373-416 | The view reads as exactly the next n unread bytes, through the ring or through tmp. |
| RingBuffer.Buffer.ReadCommit | service/buffer.go:422-452 | Drops exactly n unread bytes when there are that many, and otherwise changes nothing. |
| Bits.MaskIsMod | sessions/ackqueue.go:473-487 | Masking with a power of two less one is the remainder. |
| Bits.AndIsBitwise | sessions/ackqueue.go:473-487 | The conjunction that models the mask is bitwise. |
| Bits.PowerOfTwoExact | service/buffer.go:587-589 | The bit test accepts exactly the powers of two. |
| Bits.RoundUpPowerOfTwo64 | service/buffer.go:591-602 | The result is the least power of two that is not smaller than the argument. |
| Framing.PeekSizeSound | service/sendrecv.go:197-245 | An accepted header has one to four length bytes, a remaining length of at most 268435455, and a total of header plus remaining length. |
| Framing.ProcessRecoversPackets | service/process.go:45-86 | A concatenation of packets no larger than the ring is cut into exactly those packets. |
| Framing.ProcessInChunks | service/process.go:45-86 | Stopping for lack of bytes and going on later handles the same packets as one pass. |
| Framing.PeekMessageSize | service/sendrecv.go:197-245 | The loop over the ring computes the header scan and moves no cursor. |
| Framing.ProcessOne | service/process.go:45-86 | One round handles the first packet and commits it, or stops for the reason the scan gives. |
| Framing.Processor | service/process.go:45-86 | The loop handles exactly the packets the stream holds, in order, and leaves the rest unread. |
| Framing.GetPeekMessageSize | service/readwrite.go:130-172 | The scan over a buffered reader computes the same sizes. |
| Sending.Sender.WriteMessage | service/sendrecv.go:326-388 | For every message, encoded in place or through the temporary buffer, the output stream grows by exactly its encoding; it does not grow when the message cannot be encoded, does not fit or the ring is closed. |
| Sending.Sender.SendCopy | service/sendrecv.go:359-373 | The wrapping branch encodes into the temporary buffer and appends the encoding. |
| Sending.Sender.SendInPlace | service/sendrecv.go:373-388 | The direct branch encodes into the ring and commits the encoding; a failed encoding leaves the stream as it was. |
| Sending.EncodeInto | service/sendrecv.go:359-388 | Every kind of message fits its slice exactly when Len() bytes do, and nothing outside of the slice changes. |
| Sending.EncodingLength | service/sendrecv.go:326-333 | Whenever a message can be encoded, it takes Len() bytes. |
| Exchange.SendAll | service/sendrecv.go:326-388 | Messages sent one after the other become the concatenation of their packets, and all are sent if they fit the ring. |
| Exchange.Transfer | service/buffer.go:136-204 | What WriteTo takes off one ring enters the other as the same stream; it is carried whole when there is room and the connection lasts. |
| Exchange.Deliver | service/process.go:45-86 | Messages sent through one ring and carried to the other come out of the processor loop as the same packets, in order, each yielding its message; this does happen when both rings have room and the connection lasts. |
| Exchange.DeliverInRounds | service/process.go:45-86 | Any number of messages, sent, carried and processed in rounds, come out in order, each yielding its message; every round succeeds when it has room and the connection lasts. |
| AckModel.StepKeepsValid | sessions/ackqueue.go:209-463 | Every operation keeps ids distinct and the size a power of two that holds the entries. |
| AckModel.RunKeepsValid | sessions/ackqueue.go:140-463 | The same over every run. |
| AckModel.Conservation | sessions/ackqueue.go:248-429 | Over every run, accepted entries are the removed ones in order of removal followed by the live ones. |
| AckModel.ClearRemovesEveryExpired | sessions/ackqueue.go:277-324 | With a clock that never goes back, no expired entry survives Clear. |
| AckModel.SizeBound | sessions/ackqueue.go:431-463 | The ring never grows beyond 131072 slots. |
| AckModel.SizeBoundNonZero | sessions/ackqueue.go:431-463 | Without id 0 the ring never grows beyond 65536 slots. |
| AckModel.Pigeonhole | sessions/ackqueue.go:361-412 | At most 65536 entries, 65535 without id 0, can be live. |
| AckQueue.Ackqueue.constructor | sessions/ackqueue.go:140-165 | A new queue is empty, and its size is the least power of two that holds the entries asked for. |
| AckQueue.Ackqueue.Insert | sessions/ackqueue.go:361-412 | Ring and id map change as the list does: a new id is appended, a known id leaves the list as it is. The error returned is given for every case. |
| AckQueue.Ackqueue.Wait | sessions/ackqueue.go:169-206 | Accepts exactly the message types that are acknowledged, and inserts them. |
| AckQueue.Ackqueue.Ack | sessions/ackqueue.go:209-245 | Marks the entry with the id and no other; an error is returned exactly for a type that is no ack, and for a queued id whose ack does not encode. |
| AckQueue.Ackqueue.Acked | sessions/ackqueue.go:248-275 | Returns and removes the longest finished front of the list. |
| AckQueue.Ackqueue.Clear | sessions/ackqueue.go:277-324 | Removes the longest expired front of the list. |
| AckQueue.Ackqueue.RemoveHead | sessions/ackqueue.go:414-429 | Removes the first entry and its id. |
| AckQueue.Ackqueue.Grow | sessions/ackqueue.go:431-463 | Doubles the ring, wrapped or not, and keeps the list and the id map right. |
| Qos2Model.RunHasInv | utils/surgemq/surgemq/service/process.go:103-334 | Over every run of decodable packets, queue, accepted events and released messages are tied together. |
| Qos2Model.AcceptedAreQueued | utils/surgemq/surgemq/service/process.go:309-317 | Only QoS 2 PUBLISH events are accepted, and no more is released than accepted. |
| Qos2Model.ReleasedInOrder | utils/surgemq/surgemq/service/process.go:192-268 | onPublish has seen the first accepted messages, each once, in order of acceptance, which is the order of arrival; no event is accepted twice. |
| Qos2Model.ReleasedExactly | utils/surgemq/surgemq/service/process.go:103-268 | A message has been handed to onPublish if and only if it and every message accepted before it has had a PUBREL since. |
| Qos2Model.AcceptedExactly | utils/surgemq/surgemq/sessions/ackqueue.go:106-292 | A QoS 2 PUBLISH is accepted if and only if no accepted message with its id is still waiting to be handed on. |
| Qos2Model.EveryEventAnswered | utils/surgemq/surgemq/service/process.go:129-334 | Over every run, each event that asks for a reply gets exactly one, the right one, in the order of the events, and nothing else is replied. |
| Qos2Model.HeartbeatWithoutPubrec | utils/surgemq/surgemq/service/process.go:276-307 | A QoS 2 PUBLISH of "5" to the heartbeat topic sets the interval to 5 and gets no reply. |
| Qos2Receiver.Service.ProcessPublish | utils/surgemq/surgemq/service/process.go:274-334 | The handler makes the receiver's PUBLISH step, heartbeat updates included. |
| Qos2Receiver.Service.ProcessPubrel | utils/surgemq/surgemq/service/process.go:129-139 | The handler makes the receiver's PUBREL step. |
| Qos2Receiver.Service.ProcessAcked | utils/surgemq/surgemq/service/process.go:192-268 | Hands on exactly the messages of the finished front of the queue. |
| TopicLevels.NextTopicLevel | topics/memtopics.go:489-539 | The character scan yields the first level, with a wildcard alone in it and "$" not in front, or an error. |
| TopicLevels.GroupTopicGainsLevel | topics/memtopics.go:646-662 | A group subscription is stored under "+" followed by its topic's levels. |
| Spelling.SameLevelsExactly | topics/memtopics.go:489-539 | Valid topics that parse have the same levels if and only if they are equal but for a separator after a last level that is not empty. |
| Spelling.EmptyLevelIsPlus | topics/memtopics.go:489-539 | The filters "a//b" and "a/+/b" have the same levels. |
| SubscriptionTrie.InsertEdits | topics/memtopics.go:161-207 | Subscribing edits the entry of its own levels and no other; with a bad level, none. |
| SubscriptionTrie.RemoveEdits | topics/memtopics.go:211-286 | Unsubscribing edits the entry of its own levels and no other, or fails and changes nothing; it succeeds exactly when there is something to remove. |
| SubscriptionTrie.InsertKeepsOk | topics/memtopics.go:161-207 | Subscriber and QoS lists stay aligned and without repeats, and no group is empty. |
| SubscriptionTrie.RemoveKeepsOk | topics/memtopics.go:211-286 | The same for unsubscribing. |
| SubscriptionTrie.InsertKeepsFertile | topics/memtopics.go:161-207 | Subscribing with a filter that parses leaves no node without use. |
| SubscriptionTrie.RemoveKeepsFertile | topics/memtopics.go:211-286 | Unsubscribing leaves no node without use. |
| SubscriptionTrie.SubscribeUnsubscribe | topics/memtopics.go:161-286 | Subscribing a new subscriber and unsubscribing it gives back the same trie. |
| SubscriptionNodes.SNode.SInsert | topics/memtopics.go:161-207 | The nodes on the heap change as the value does, and stay disjoint. |
| SubscriptionNodes.SNode.SRemove | topics/memtopics.go:211-286 | The nodes on the heap change as the value does; empty nodes are dropped. |
| SubscriptionMatch.MatchQos | topics/memtopics.go:550-580 | A node answers with each subscriber once at the smaller QoS, and one member of each group at QoS 1. |
| SubscriptionMatch.SMatch | topics/memtopics.go:292-320 | The answer holds every entry whose filter matches exactly once, with lists aligned. |
| SubscriptionTable.StepAgrees | topics/memtopics.go:64-98 | Trie and table agree after any call, failed ones included. |
| SubscriptionTable.RunAgrees | topics/memtopics.go:64-98 | Trie and table agree after any sequence of calls. |
| SubscriptionTable.RunFertile | topics/memtopics.go:161-286 | Over runs whose filters parse, every node but the root has subscribers, groups or children. |
| SubscriptionTable.NothingLeft | topics/memtopics.go:161-286 | When the last subscription is gone, so is every node. |
| SubscriptionTable.RemovableExactly | topics/memtopics.go:211-286 | Unsubscribing a subscriber succeeds exactly when the table lists it. |
| SubscriptionShape.InsertNodes | topics/memtopics.go:161-207 | Subscribing makes nodes for exactly the levels up to the first bad one. |
| SubscriptionShape.RemoveNodes | topics/memtopics.go:211-286 | Unsubscribing drops exactly the nodes on the filter's way that it leaves without entries and without other ways on. |
| SubscriptionShape.DroppedIsLost | topics/memtopics.go:211-286 | The nodes dropped are exactly the parts of the filter that no entry continues and no refused filter continues elsewhere. |
| SubscriptionShape.RunShaped | topics/memtopics.go:161-286 | After any calls, refused ones included, the trie has exactly the nodes that the table and the refused filters reach. |
| SubscriptionShape.SucceedsExactly | topics/memtopics.go:211-286 | Unsubscribing succeeds exactly when the subscriber is listed, or for a nil subscriber when there is a node for the filter. |
| SubscriptionScan.AnswerIsScan | topics/memtopics.go:101-113 | The subscribers without group are the multiset of (subscriber, smaller QoS) over the matching rows of the table. |
| SubscriptionScan.GroupsAnswered | topics/memtopics.go:550-580 | Each matching group is answered by exactly one of its members, at QoS 1. |
| RetainedTrie.InsertEdits | topics/memtopics.go:338-385 | Storing changes the message of its own levels and of no other. |
| RetainedTrie.InsertNodes | topics/memtopics.go:338-385 | Storing makes nodes for exactly the levels up to the first bad one. |
| RetainedTrie.RemoveEdits | topics/memtopics.go:388-425 | Removing clears its own levels, keeps all levels that are not a proper part of them, and keeps a part unless it is pruned. |
| RetainedTrie.PrunedExactly | topics/memtopics.go:388-425 | The nodes pruned are exactly those on the topic's way from which no node leads off it. |
| RetainedTable.RunHolds | topics/memtopics.go:115-127 | After any history of messages, refused ones included, the trie holds what the flat table holds and has exactly the nodes the table reaches. |
| RetainedTable.PrunedIsLost | topics/memtopics.go:388-425 | What pruning takes is exactly the parts of the topic that no retained topic and no refused one continues elsewhere. |
| RetainedTable.ClearKeepsOthersExactly | topics/memtopics.go:388-425 | On any trie, clearing a topic that has a node keeps the messages at all other levels if and only if from each proper part of it that holds one some node leads off its way. |
| RetainedTable.ClearKeepsOthersInRun | topics/memtopics.go:388-425 | After any history, clearing a topic keeps the messages at all other levels if and only if it has no node or each retained proper part of it is continued off its way by a retained topic or by the good levels of a refused one. |
| RetainedTable.ClearKeepsMessagesExactly | topics/memtopics.go:388-425 | After any history, clearing a topic keeps every message published to another topic if and only if it has no node, or its levels hold no message of another topic and its retained parts continue. |
| RetainedTable.StoreKeepsMessagesExactly | topics/memtopics.go:338-385 | After any history, storing a message keeps every message published to another topic if and only if its levels hold no message of another topic. |
| RetainedTable.ClearLosesParent | topics/memtopics.go:388-425 | With "a" and "a/b" in the trie, clearing "a/b" leaves no message. |
| RetainedTable.RefusedTopicLosesParent | topics/memtopics.go:338-425 | With "a" in the trie and "a/b/$x" refused, clearing "a/b" leaves no message. |
| RetainedTable.SeparatorSharesNode | topics/memtopics.go:338-425 | With "a" in the trie, clearing "a/" loses its message and storing to "a/" replaces it. |
| RetainedNodes.RNode.RInsert | topics/memtopics.go:338-385 | The nodes on the heap change as the value does, and stay disjoint. |
| RetainedNodes.RNode.RRemove | topics/memtopics.go:388-425 | The nodes on the heap change as the value does; childless nodes are dropped. |
| RetainedMatch.AllRetained | topics/memtopics.go:470-478 | Every message at or below the node, once. |
| RetainedMatch.RMatch | topics/memtopics.go:430-468 | Exactly the messages of the topics that the filter asks for, once each. |
| RetainedMatch.AnswerIsScan | topics/memtopics.go:129-134 | The answer pairs off with the rows of the table that the filter asks for. |
| RetainedMatch.AnsweredIsScan | topics/memtopics.go:129-134 | Every answer has such a pairing. |
| Wildcards.SplitPutsHashLast | topics/memtopics.go:489-539 | A filter that parses has "#" only as its last level. |
| Wildcards.AsksIsStandard | topics/memtopics.go:430-468 | Retained matching is the rule of section 4.7.1 of MQTT 3.1.1, over the broker's levels. |
| Wildcards.MatchesIsStandardButParent | topics/memtopics.go:292-320 | Subscription matching is that rule except for exactly the topics that stop where "#" begins. |
| Wildcards.HashMissesParent | topics/memtopics.go:292-320 | The filter "a/#" misses the topic "a" among subscriptions and finds it among retained messages. |
| MemTopics.Topics.Subscribe | topics/memtopics.go:64-88 | Succeeds exactly for a valid QoS, a subscriber and a filter that parses, and grants the QoS asked for. |
| MemTopics.Topics.Unsubscribe | topics/memtopics.go:90-98 | Succeeds exactly when the table of the calls made lists the subscriber, or for a nil subscriber when those calls have left a node for the filter; otherwise nothing changes. |
| MemTopics.Topics.Subscribers | topics/memtopics.go:101-113 | After any calls, the answer is the scan of the table those calls build, with one member per group. |
| MemTopics.Topics.Retain | topics/memtopics.go:115-127 | Storing succeeds exactly for a topic that parses, removing exactly when the history has left a node for it; a removal that fails changes nothing. |
| MemTopics.Topics.Retained | topics/memtopics.go:129-134 | After any messages, the answer has one message per row that the filter asks for. |
| MessageTypes.TypeByteSplits | utils/surgemq/message/header.go:82-105 | Type and flags can be read back from the first byte. |
| Wire.LPRoundTrip | utils/surgemq/message/message.go:352-390 | A length-prefixed string is read back, whatever follows. |
| Wire.UvarintRoundTrip | utils/surgemq/message/header.go:166-254 | A remaining length is read back and takes as many bytes as msglen counts. |
| Wire.HeaderRoundTrip | utils/surgemq/message/header.go:166-254 | A header is read back, whatever follows. |
| Wire.AcceptedHeader | utils/surgemq/message/header.go:195-237 | What an accepted header promises, and when the decoded length is the one on the wire. |
| Wire.NegativeLengthAccepted | utils/surgemq/message/header.go:224-234 | Five length bytes can pass as a negative remaining length. |
| PublishCodec.EncodesWhole | utils/surgemq/message/publish.go:131-247 | Encode of a well-formed message writes exactly Len() bytes. |
| PublishCodec.RoundTrip | utils/surgemq/message/publish.go:145-256 | Decode undoes Encode, whatever follows. |
| PublishCodec.SentArrives | utils/surgemq/message/publish.go:145-256 | A message without packet id arrives with the id that Encode gives it. |
| PublishMessage.DupSetIsField | utils/surgemq/message/publish.go:57-63 | The bit operations change the DUP flag and nothing else. |
| PublishMessage.RetainSetIsField | utils/surgemq/message/publish.go:74-80 | The bit operations change the RETAIN flag and nothing else. |
| PublishMessage.QosSetIsField | utils/surgemq/message/publish.go:91-99 | The bit operations change the QoS field and nothing else. |
| PublishMessage.FlagsInPlace | utils/surgemq/message/publish.go:57-99 | A message with other flags has the same packet but for the first byte. |
| PublishMessage.IdInPlace | utils/surgemq/message/header.go:146-164 | A message with another packet id has the same packet but for the two id bytes. |
| PublishMessage.QosZeroInPlace | utils/surgemq/message/publish.go:91-99 | Setting QoS 0 in place makes the packet of a message whose payload starts with the old id. |
| PublishMessage.QosInPlaceExact | utils/surgemq/message/publish.go:91-99 | Setting the QoS in place agrees with encoding anew if and only if the new QoS is not 0. |
| PublishMessage.ImageExact | utils/surgemq/message/publish.go:57-99 | The buffer that setters leave behind is the encoding of the message if and only if its QoS is not 0. |
| PublishMessage.Message.Decode | utils/surgemq/message/publish.go:145-181 | The fields become slices of the receive buffer that read as the decoded message. |
| PublishMessage.Message.SetDup | utils/surgemq/message/publish.go:57-63 | Writes the flag byte through its slice and no other byte of the buffer. |
| PublishMessage.Message.SetRetain | utils/surgemq/message/publish.go:74-80 | The same for RETAIN. |
| PublishMessage.Message.SetQoS | utils/surgemq/message/publish.go:91-99 | The same for the QoS; a QoS above 2 is refused without change. |
| PublishMessage.Message.SetPacketId | utils/surgemq/message/header.go:146-164 | Writes through a two-byte slice, or allocates and marks the message dirty; 0 does nothing. |
| PublishMessage.Message.EncodeClean | utils/surgemq/message/publish.go:183-191 | An unchanged message is encoded by copying its buffer, if it fits. |
| PublishMessage.Message.Rewrite | utils/surgemq/message/publish.go:57-247 | Decode, any sequence of setters and Encode give the encoding of the updated message, through the aliased buffer alone, if and only if its QoS does not end up as 0. |
| SubscribeCodec.DecodeTopics | utils/surgemq/message/subscribe.go:156-192 | The loop reads the list that the recursive decoder reads. |
| SubscribeCodec.RoundTrip | utils/surgemq/message/subscribe.go:142-259 | Decode undoes Encode, which writes Len() bytes, whatever follows. |
| SubscribeCodec.SentArrives | utils/surgemq/message/subscribe.go:142-259 | A message without packet id arrives with the id that Encode gives it. |
| UnsubscribeCodec.DecodeTopics | utils/surgemq/message/unsubscribe.go:115-147 | The loop reads the list that the recursive decoder reads. |
| UnsubscribeCodec.DecodesPrefix | utils/surgemq/message/unsubscribe.go:115-216 | Decoding an encoded message gives a non-empty prefix of its topics. |
| UnsubscribeCodec.RoundTripExact | utils/surgemq/message/unsubscribe.go:115-216 | The round trip holds if and only if there are at most 2 + (length of the last topic) topics. |
| UnsubscribeCodec.LosesTopics | utils/surgemq/message/unsubscribe.go:115-147 | Of the topics a, b, c, d the last one is lost. |
| ConnectCodec.EncodedArrives | utils/surgemq/message/connect.go:383-632 | What decoding any encoded CONNECT gives: which error, or which message. |
| ConnectCodec.RoundTripExact | utils/surgemq/message/connect.go:343-658 | The round trip holds if and only if flags and fields agree, flags are legal and the client id is accepted. |
| ConnectCodec.PasswordShifts | utils/surgemq/message/connect.go:429-592 | With both flags set and an empty user name, the password arrives as the user name. |
| AckPackets.RoundTrip | utils/surgemq/message/puback.go:52-104 | Decode undoes Encode for all packets that carry only an id. |
| Encoders.WriteLPBytes | utils/surgemq/message/message.go:372-390 | Succeeds exactly when the string is short enough and fits the slice, and writes nowhere else. |
| Encoders.EncodeHeaderInto | utils/surgemq/message/header.go:166-190 | Succeeds exactly for a valid type and length that fit, and writes msglen bytes. |
| Encoders.PublishLength | utils/surgemq/message/publish.go:131-143 | Whenever Encode succeeds, it writes Len() bytes. |
| Encoders.EncodePublish | utils/surgemq/message/publish.go:193-247 | Succeeds exactly when the message can be encoded and fits, and then leaves its bytes in the slice. |
| Encoders.EncodeSubscribe | utils/surgemq/message/subscribe.go:203-248 | The same; the space check also counts a header for the previous remaining length. |
| Encoders.EncodeUnsubscribe | utils/surgemq/message/unsubscribe.go:163-205 | The same. |
| Encoders.EncodeMessage | utils/surgemq/message/connect.go:429-488 | Succeeds exactly when every written field fits its prefix and all fit the slice. |
| Encoders.EncodeConnect | utils/surgemq/message/connect.go:392-427 | The same for the whole packet of a supported version. |
| Encoders.EncodeAck | utils/surgemq/message/puback.go:70-104 | The four bytes of an acknowledgement, if they fit. |
| Encoders.EncodeUnchanged | utils/surgemq/message/publish.go:183-191 | A message that has not changed is copied, if it fits. |
| Delivery.HeaderMakesPacket | utils/surgemq/message/header.go:166-190 | A header and as many bytes as it announces are one packet to the framing. |
| Delivery.MessageIsPacket | service/sendrecv.go:249-282 | Every message whose codec round trip holds is encoded as one packet that decodes to it. |
| Delivery.StreamDelivers | service/process.go:45-86 | Messages sent one after the other come out of the processor loop as the same packets, in order, each decoding to its message. |

## Left out

- Condition variables, mutexes and wake-ups: a wait is a step that is enabled by its condition; safety is proved, liveness is not.
- Methods of `RingBuffer.Buffer` run with the other side at rest and report a wait as blocked; interleaving inside a call is covered by the step system only.
- RingBuffer.Buffer.ReadFrom: a call that waits for space and then finds the ring closed returns 0 in the source; the model stops where the call waits.
- Overflow of the 64-bit stream cursors: positions are naturals.
- `sync.Pool` and `BytesPool`: a buffer from a pool is a new buffer.
- `Stop` of the ack queue and of services, timers, `onComplete` callbacks and session resumption.
- Connections, TLS, WebSocket, authentication, device kick-off, the CONNECT read loop and every database, queue and RPC client: I/O.
- `equal` on subscribers: subscribers are compared by identity instead of by reflection.
- `rnode.buf`: a retained message is stored as the message itself; the copy through Encode and Decode, which is the identity for a received message, is not repeated.
- Capacity of Go slices beyond their length. The lists in a node are values, without the aliasing between `subs` slices before and after an append. The decoders report `OutOfRange` where a packet is shorter than its fields; in the source such a slice of the ring, for example the packet id of a PUBREL with remaining length 0, reads the bytes that follow the packet, and only runs off the end of the buffer panic. `Qos2Model.Legal` leaves such packets out.
- Decoders other than PUBLISH read from a value instead of a slice that aliases the receive buffer.
- `SubscribeMessage.AddTopic`, `RemoveTopic` and the setters of CONNECT: the codec takes the lists and fields they leave behind as given.
- CONNACK, SUBACK, PINGREQ, PINGRESP and DISCONNECT codecs: fixed or list-of-bytes bodies that no modelled loop depends on.
- The near-identical copies of ring, framing and tries under `utils/surgemq/surgemq`, and the root handler for QoS 2, which refuses it.
- Qos2Receiver.Service.ProcessPublish: the reply is recorded in a list; a reply that cannot be written, after which the source does not hand a QoS 1 message on, is not modelled.
- AckQueue.Ackqueue.constructor: sizes below 1 and above 2^62, for which the rounding overflows, are not modelled.
