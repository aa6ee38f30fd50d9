# A verified model of tntpub

tntpub is a publish/subscribe broker. Clients talk to a server over TCP in binary frames; the server hands each data
message to every client with a matching subscription. This project models the library down to its bytes and proves, for
every run, what a subscriber gets to see.

| file | what it models |
|---|---|
| Wrappers.dfy | a value that may be missing |
| Binary.dfy | bytes, little-endian integers, stores into a vector |
| Messages.dfy | topics, the kinds of subscription, data messages, the choice of message types |
| Codec.dfy | the frame: `appendTo` and `processMessage` on a raw buffer |
| CodecProperties.dfy | frames read back, and only frames do; what arrives later changes nothing |
| WireFormat.dfy | the frame byte by byte, in plain numbers and characters |
| Framing.dfy | streams: the whole-stream parser, `advance`, the internal buffer, chunking |
| Streams.dfy | sequences of encoded messages |
| Deserializer.dfy | `DataMessageDeserializer` as a class |
| ClientOutput.dfy | the client's output as a state machine: two buffers and one write under way |
| Client.dfy | `MessageSink` and `Client` as classes |
| SubscriptionLists.dfy | a responder's subscription list, removal, matching |
| History.dfy | the abstract broker: a list of handled messages and what follows from it |
| Broker.dfy | the byte-level broker as a state machine, and its refinement of the abstract one |
| Server.dfy | `Responder` and `Server` as classes, each method proved against the state machine |
| EndToEnd.dfy | clients and broker together, for every interleaving |

The main result is `EndToEnd.DispatchedIsFilteredLog`: on every run, the messages that a client has dispatched are an
initial part of the accepted log, filtered by that client's subscriptions at the time of acceptance, each message
unchanged but for its serial. The runs take in any sends, any switching between buffered and immediate output, partial
writes of any size, reads in chunks of any size on both sides, any reaction of the `outputBufferFull` handlers, and
closings at any time; a peer may even write bytes that did not come from the library. `EndToEnd.QuietIsComplete` adds that nothing is
missing once nothing is on its way, `EndToEnd.LibraryStaysConnected` that a well-behaved client is not cut off, and
`EndToEnd.SendingGetsThrough` and `EndToEnd.DeliveryGetsThrough` that two events are always enough to get everything
through one way.

## How it is built

- C++ classes are Dafny classes whose methods are proved equal to functions on values; the properties are lemmas about
  these functions. `Client` is proved against `ClientOutput.Output` and `Framing.DrainBuffered`, `Server` against
  `Brokers.Handle` and `Brokers.OnInput`.
- A run is a sequence of states, each of which one step leads to the next (`EndToEnd.IsRun`); a step that is not possible
  leaves the state as it is, so any sequence of steps gives a run. The results hold at every moment of every run.
- Sockets are not modelled. A read is any chunk of bytes. How much a write takes is an unconstrained choice of `Peer`;
  for the responder's socket it is a parameter. The `outputBufferFull` handlers are an arbitrary function that says how
  many pending bytes they get written. The regex engine is an arbitrary function of pattern and text.
- A `std::vector<char>` or `std::string` buffer is a sequence of bytes. A C++ exception is an error result.
- Integer widths are the source's: lengths are narrowed to 16 and 32 bits by `appendTo`, the deserializer passes its
  buffer's size as a 32-bit `unsigned`, serials are 64 bits wide.
- A handler of a message in `onInput` runs inside `advance` in the source. It cannot reach the deserializer, so the
  model takes the messages of a chunk first and handles them in order after that.

## What turned out not to hold

- A message that is not encodable (an invalid type, a string of 65536 bytes or more before the data, or 4 GiB in all)
  does not survive the wire: `CodecProperties.RoundTripExact` is an equivalence, and `CodecProperties.NarrowedArrivesAs`
  tells the other message that arrives for an overlong string from the error for an invalid type. `subscribeWithObject` with
  `RegexReversed` is such a case, and `subscribe` and `unsubscribe` turn `RegexReversed` into `Full`
  (`SubscriptionLists.FactoryKinds`).
- Chunking does make a difference when the internal buffer reaches 4 GiB, since its size is passed as an `unsigned`.
  `Framing.ChunkingIndependent` says exactly when, by a check before every call, and `Framing.AdvanceExact` does so for one
  call; `Streams.LargestMessageIsStuck` gives a case. `readMessage` and `onInput` are affected in the same way
  (`Clients.InputPathsAgree`).
- The in-place path of `advance` leaves nothing buffered after an exception, the plain path does
  (`Framing.FastPathRefines`).
- An unsubscribe takes away the oldest entry with the same kind and main topic, whatever its subtopic
  (`SubscriptionLists.UnsubscribeTakesTheOldest`). When it undoes its subscribe is told exactly for the queues of all keys
  (`SubscriptionLists.UnsubscribeUndoesExactly`), for the delivery of a topic
  (`SubscriptionLists.UnsubscribeKeepsDeliveryExactly`) and for the list itself
  (`SubscriptionLists.UnsubscribeRestoresTheList`).

## Model

| member | source | states |
|---|---|---|
| Codec.AppendTo | src/tntpub/datamessage.cpp:98-123 | the in-place stores into the grown vector add exactly the encoding behind the unchanged earlier contents, for every message, narrowed lengths and overlapping copies included |
| Codec.ParseFrame | src/tntpub/datamessage.cpp:155-247 | a frame takes at least 40 bytes, no more than are there, and fewer than 2^32; a buffer of 4 GiB is never incomplete |
| Codec.ParseVersion2 | include/tntpub/datamessage.h:71-103 | the same bounds for the new format |
| Codec.ParseVersion1 | include/tntpub/datamessage.h:47-69 | the same bounds for the old format |
| CodecProperties.ParseExact | src/tntpub/datamessage.cpp:170-208 | the parser accepts a buffer exactly when it starts with the encoding of an encodable message, padding aside, and returns that message and length; so decoding inverts encoding and re-encoding restores a frame |
| CodecProperties.RoundTripExact | src/tntpub/datamessage.cpp:98-140 | an encoding followed by any bytes reads back as the same message if and only if the message is encodable |
| CodecProperties.NarrowedArrivesAs | src/tntpub/datamessage.cpp:107-122 | what arrives of a message below 4 GiB: with a valid type a frame of the same extent, type, serial and date whose strings share out the copied bytes by the narrowed lengths, otherwise an error |
| CodecProperties.PrefixStable | src/tntpub/datamessage.cpp:160-246 | once a buffer yields a frame or an error, appended bytes change nothing, for both values of the version-1 flag |
| CodecProperties.FailureIsFinal | src/tntpub/datamessage.cpp:160-244 | a buffer with a whole header, or with 32 bytes and no new magic number, is refused exactly when no continuation of it is a frame |
| CodecProperties.Version2Layout | include/tntpub/datamessage.h:85-93 | in an accepted frame the four strings lie one behind the other from byte 40 to the message length |
| CodecProperties.Version1Exact | src/tntpub/datamessage.cpp:210-242 | the old format is accepted exactly in the shape its fields give, with the topic from byte 40 on although the header ends at byte 32 |
| CodecProperties.ReadHeader | include/tntpub/datamessage.h:71-83 | each field of an encoded header is found where the reader looks for it |
| CodecProperties.BodyInRange | src/tntpub/datamessage.cpp:119-122 | without narrowing the four copies lie one behind the other without gap or overlap |
| CodecProperties.PrefixFree | src/tntpub/datamessage.cpp:98-123 | no encoding of an encodable message is a proper prefix of another one |
| CodecProperties.ValidTypeOfCode | src/tntpub/datamessage.cpp:142-153 | exactly the types other than Null and the two reversed regex types are recognized by their character |
| WireFormat.FrameBytes | include/tntpub/datamessage.h:31-83 | every written frame, byte by byte: 32 75 70 74 in front, each number with its low byte first at its offset, zeros as padding, the literal character of each of the twelve types |
| WireFormat.BodyBytes | src/tntpub/datamessage.cpp:119-122 | every byte behind the header, for any string lengths: of the copies that reach it the last one wins |
| WireFormat.VerdictByBytes | src/tntpub/datamessage.cpp:155-247 | in terms of bytes only, for both formats: which buffers are incomplete, which are refused with which error, which hold a frame and how long it is |
| WireFormat.ContentByBytes | src/tntpub/datamessage.cpp:193-232 | in terms of bytes only, for both formats: type, date, serial and strings of the message in a frame |
| Framing.DrainSplit | src/tntpub/datamessage.cpp:249-259 | the messages of a longer stream are those of its first part followed by those of the remainder and the rest |
| Framing.DrainConserves | src/tntpub/datamessage.cpp:249-285 | the consumed frames and the remainder together are the stream |
| Framing.SplitIsUnique | src/tntpub/datamessage.cpp:249-285 | any cut of a stream into frames and a remainder has the frames, messages and remainder that draining finds |
| Framing.FrameAlone | src/tntpub/datamessage.cpp:155-247 | a frame is determined by its own bytes |
| Framing.DrainBufferedExact | src/tntpub/datamessage.cpp:249-259 | draining the internal buffer is the whole-stream parse exactly below 4 GiB or when the visible part already fails |
| Framing.FastPathRefines | src/tntpub/datamessage.cpp:261-285 | the in-place path gives the same messages, error and buffer as `addData` and draining, with the exact exceptions |
| Framing.AdvanceExact | src/tntpub/datamessage.cpp:261-285 | exactly when one call of `advance` does what the whole-stream parser does |
| Framing.AdvancePart | src/tntpub/datamessage.cpp:261-285 | one call takes a first part of what the whole stream has to give, whatever follows |
| Framing.ChunkingExact | src/tntpub/datamessage.cpp:261-285 | any chunking yields the messages and the error of the one-shot parse exactly when it ends in an error or below 4 GiB, and never a message that this parse does not yield |
| Framing.ChunkingIndependent | src/tntpub/datamessage.cpp:261-285 | chunking makes no difference exactly when a check of `in_avail()` before every call always finds room below 4 GiB or an error ends it; on streams without errors exactly when that check always succeeds, and then the same bytes stay buffered |
| Streams.UniquelyDecodable | src/tntpub/datamessage.cpp:98-285 | the concatenated encodings of any encodable messages parse to exactly these messages with nothing left over |
| Streams.DrainPrefix | src/tntpub/client.cpp:198-214 | from any prefix of such a stream draining yields an initial part of the messages and keeps exactly the bytes behind them |
| Streams.AdvancePrefix | src/tntpub/responder.cpp:98-129 | the same for `advance` on buffered bytes and a new chunk |
| Streams.LargestMessageIsStuck | src/tntpub/datamessage.cpp:249-259 | a message of the largest size followed by one byte in the same read stays in the buffer, while the whole-stream parser yields it |
| Deserializer.DataMessageDeserializer.constructor | include/tntpub/datamessage.h:291-293 | nothing is buffered and the version flag is kept |
| Deserializer.DataMessageDeserializer.AddData | include/tntpub/datamessage.h:295-296 | the bytes are appended |
| Deserializer.DataMessageDeserializer.ProcessMessage | src/tntpub/datamessage.cpp:249-259 | one frame leaves the buffer, or nothing changes |
| Deserializer.DataMessageDeserializer.ProcessAll | src/tntpub/datamessage.cpp:280-281 | the loop drains the buffer and counts what it takes |
| Deserializer.DataMessageDeserializer.Advance | src/tntpub/datamessage.cpp:261-285 | the two loops emit, keep and raise what the function on values says, and the count takes in messages of the internal buffer only |
| Deserializer.CreateFromBuffer | src/tntpub/datamessage.cpp:125-140 | any buffer below 4 GiB that starts with an encoding gives that message, and what it gives has its encoding at the front of the buffer |
| ClientOutput.ActConserves | src/tntpub/client.cpp:54-108 | every event at a client keeps the in-flight discipline and the order of bytes on the wire, in the first and in the second buffer |
| ClientOutput.OutputConserved | src/tntpub/client.cpp:54-182 | on every run these bytes are the encodings of all messages sent, and the client is writing exactly when its first buffer is non-empty, the second one is in use only then, and both are empty in immediate mode |
| ClientOutput.InFlightUntouched | src/tntpub/client.cpp:66-81 | no send touches the bytes handed to an outstanding write |
| ClientOutput.SendExact | src/tntpub/client.cpp:54-82 | every run: in immediate mode a send leaves all that was ever sent on the wire; in buffered mode it writes nothing and the socket has an offer, the message itself when it was idle |
| ClientOutput.FlushExact | src/tntpub/client.cpp:84-108 | every run, in either mode: after `flush` nothing is under way or pending and all that was ever sent is on the wire |
| ClientOutput.AutoSyncExact | include/tntpub/client.h:132-133 | every run: the mode is the one asked for; switching on leaves all on the wire, switching off changes nothing else |
| ClientOutput.WrittenExact | src/tntpub/client.cpp:148-181 | every run: a completion moves exactly the bytes it reports, and all the others are offered at once |
| ClientOutput.MessagesSentExact | src/tntpub/client.cpp:152-158 | `messagesSent` fires exactly when every byte sent is on the wire |
| ClientOutput.CompletionsEnd | src/tntpub/client.cpp:140-182 | completions that each take a byte are no more than the pending bytes, and end with all of them on the wire |
| Clients.Client.DoSendMessage | src/tntpub/client.cpp:54-82 | the three ways a message is put out |
| Clients.Client.Flush | src/tntpub/client.cpp:84-108 | finishes the write under way and empties both buffers in order, and terminates |
| Clients.Client.AutoSync | include/tntpub/client.h:132 | switching to immediate mode flushes |
| Clients.Client.OnOutput | src/tntpub/client.cpp:140-182 | swap or merge of the buffers for any count, the discipline kept, `messagesSent` exactly when nothing is pending |
| Clients.Client.OnInput | src/tntpub/client.cpp:190-231 | dispatches every complete message in order, keeps the remainder, remembers the last message |
| Clients.Client.ReadMessage | src/tntpub/client.cpp:110-128 | reads until a message is complete, the stream is corrupt or ends |
| Clients.ReadMessageIsDrain | src/tntpub/client.cpp:110-128 | each call takes the next message of the whole stream, fails where the stream does, or runs into the end with all bytes buffered, which is all there was exactly below 4 GiB |
| Clients.ReadAllIsDrain | src/tntpub/client.cpp:110-128 | repeated calls give the messages and the error of the whole stream exactly when they end in an error or below 4 GiB, and never another message |
| Clients.ReadAllIsFeed | src/tntpub/client.cpp:110-128 | from any settled buffer repeated calls see the messages, the error and the remainder that repeated `advance` sees, on every stream |
| Clients.InputPathsAgree | src/tntpub/client.cpp:110-214 | repeated `readMessage`, `onInput` and `advance` agree on every stream, and with the whole-stream parse exactly under the check before every read |
| MessageSinks.MessageSink.DispatchMessage | src/tntpub/messagesink.cpp:5-17 | the signal carries every message; what is invoked is, with the message itself, each callback that matches its topic, once and in the order of registration, and none unless it is a `Data` message |
| MessageSinks.CallsExact | src/tntpub/messagesink.cpp:12-16 | the invocations a dispatch makes are exactly these |
| MessageSinks.SlotsExact | src/tntpub/messagesink.cpp:12-16 | each matching callback is invoked once and no other one |
| SubscriptionLists.PerKeyQueue | src/tntpub/responder.cpp:54-81 | after any run the entries of one kind and main topic are a queue of its subscribes from which each unsubscribe drops the oldest |
| SubscriptionLists.RestrictRemove | src/tntpub/responder.cpp:59-66 | a removal leaves every other key alone |
| SubscriptionLists.ListByType | src/tntpub/responder.cpp:54-81 | message type by message type, what is added to the list, that the oldest entry of the kind and main topic goes, and that the other types leave it alone |
| SubscriptionLists.OneSubscribeLetsThrough | src/tntpub/subscription.cpp:36-107 | subscribe type by subscribe type, exactly which topics a responder is sent after one message, and none before it or after another type |
| SubscriptionLists.SubscribesLetThrough | src/tntpub/responder.cpp:146-159 | several subscribe messages let through what one of them does |
| SubscriptionLists.MadeLetsThrough | src/tntpub/subscription.cpp:116-147 | kind by kind, exactly which topics a subscription matches that is built directly, and that a default-constructed one matches all |
| SubscriptionLists.UnrestrictedKey | src/tntpub/subscription.cpp:149-155 | the default-constructed subscription has the empty main topic for its key |
| SubscriptionLists.UnsubscribeUndoesExactly | src/tntpub/subscription.cpp:149-155 | an unsubscribe leaves the queue of every key as it was before its subscribe exactly when all entries with the same kind and main topic are copies of the new one |
| SubscriptionLists.UnsubscribeKeepsDeliveryExactly | src/tntpub/responder.cpp:54-81 | per topic: the delivery is as before exactly when no entry has that key, or another entry matches, or the oldest one with that key matches as the new one does |
| SubscriptionLists.UndoneKeepsAllDeliveries | src/tntpub/responder.cpp:54-81 | where the queues are unchanged, every topic is delivered as before |
| SubscriptionLists.UnsubscribeRestoresTheList | src/tntpub/responder.cpp:54-81 | exactly when even the order of the list is restored |
| SubscriptionLists.UnsubscribeTakesTheOldest | src/tntpub/subscription.cpp:149-155 | unsubscribing from a second subtopic ends the deliveries of the first one |
| SubscriptionLists.FactoryKinds | src/tntpub/datamessage.cpp:46-67 | which requested kinds arrive as themselves, and which message types are refused |
| SubscriptionLists.MoreMatchesMore | src/tntpub/responder.cpp:146-159 | a list matches what its parts match |
| SubscriptionLists.WideningKeepsDeliveries | src/tntpub/subscription.cpp:36-61 | full implies prefix, shorter prefixes and empty subtopics widen, in any list |
| SubscriptionLists.RegexPartition | src/tntpub/subscription.cpp:80-107 | a regex and its reversal share out the topics of one main topic |
| SubscriptionLists.PrefixIsCompare | src/tntpub/subscription.cpp:57-61 | the substring comparison is a prefix test |
| SubscriptionLists.TopicMatchIsFullMatch | include/tntpub/topic.h:39-44 | `Topic::match` is full matching with the roles swapped |
| History.LogIsAccepted | src/tntpub/responder.cpp:104-109 | the log has exactly the handled messages of type `Data` or `PlainData`, each once, in order, unchanged but for consecutive serials |
| History.ExpectedIsSelection | src/tntpub/responder.cpp:161-165 | what a connection is due is a selection from the log in the order of the log |
| History.PicksExact | src/tntpub/responder.cpp:146-165 | selected are exactly the entries accepted while the connection had a matching subscription |
| History.OriginsInOrder | src/tntpub/responder.cpp:161-165 | each message due is an accepted one but for its serial, and later ones were accepted later |
| History.PlaceHolds | src/tntpub/responder.cpp:102-129 | each handled message stands at its place among those of its connection |
| History.PlacesInOrder | src/tntpub/responder.cpp:102-129 | of one connection, what was handled later stands later |
| History.SerialsIncrease | include/tntpub/datamessage.h:271-272 | below 2^64 messages the serials of what a connection is due grow strictly |
| Brokers.FanOutExact | src/tntpub/responder.cpp:161-208 | per responder: unaffected, or given the message once, or removed exactly when over the bound after the handler, which is asked only when the buffer is over the bound; what is written and what stays pending to the byte |
| Brokers.HandleByType | src/tntpub/responder.cpp:102-125 | type by type: `Data` and `PlainData` take the next serial and go to everyone, the others give no serial and no delivery |
| Brokers.HandleAllExact | src/tntpub/responder.cpp:102-129 | the messages of a read are handled one by one, all unless one has the connection closed |
| Brokers.OnInputExact | src/tntpub/responder.cpp:88-144 | one read of any bytes: which messages are handled, those before an error included; an error closes the connection and, without a bound, nothing else does |
| Brokers.GarbageIsCut | src/tntpub/responder.cpp:138-143 | bytes without the magic number cost their sender the connection and no one else anything |
| Brokers.SendMessageBounded | src/tntpub/responder.cpp:167-189 | whoever stays open is within the bound and no byte is lost |
| Brokers.HandleRefines | src/tntpub/responder.cpp:102-129 | one handled message keeps the refinement of the abstract broker: subscriptions, serial, and all bytes ever appended to each live output |
| Brokers.OnInputRefines | src/tntpub/responder.cpp:88-144 | so does any chunk of any bytes |
| Servers.Responder.IsSubscribed | src/tntpub/responder.cpp:146-159 | true exactly when some entry matches |
| Servers.Responder.Subscribe | src/tntpub/responder.cpp:74-81 | the entry is appended |
| Servers.Responder.UnsubscribeMessageReceived | src/tntpub/responder.cpp:54-67 | the oldest entry with the key is removed, or nothing |
| Servers.Responder.SendMessage | src/tntpub/responder.cpp:167-189 | append, handler, close, as the state machine has it |
| Servers.Responder.OnDataMessageReceived | src/tntpub/responder.cpp:161-165 | sends exactly when subscribed |
| Servers.Responder.CloseClient | src/tntpub/responder.cpp:203-208 | pending bytes are gone, the connection is closed |
| Servers.Server.OnConnectionPending | src/tntpub/server.cpp:41-49 | a new responder without subscriptions joins the others |
| Servers.Server.DoSendMessage | src/tntpub/server.cpp:60-63 | the loop over the responders does for each of them what the state machine says |
| Servers.Server.ProcessMessage | src/tntpub/responder.cpp:102-125 | the dispatch on the message type is the state machine's step |
| Servers.Server.OnInput | src/tntpub/responder.cpp:88-144 | reading a chunk is the state machine's step |
| EndToEnd.DispatchedIsFilteredLog | src/tntpub/responder.cpp:88-189 | every run: what a client has dispatched is an initial part of the log filtered by its subscriptions at acceptance, and what the server has handled from a client of the library is an initial part of what that client sent |
| EndToEnd.QuietIsComplete | src/tntpub/client.cpp:54-231 | every run: nothing is missing once nothing is on its way |
| EndToEnd.DispatchedWasSent | src/tntpub/server.cpp:51-63 | every run, whatever other clients do: a dispatched message was accepted from some connection, and if that is a client of the library it is what that client sent at the same place in its order, but for the serial |
| EndToEnd.DispatchedInSendingOrder | src/tntpub/server.cpp:51-63 | every run: a later dispatched message was accepted later and, from the same publisher, sent later, so none is doubled or overtakes another |
| EndToEnd.SameOrderEverywhere | src/tntpub/server.cpp:51-63 | every run: serials grow strictly at each client and two clients see their common messages in the same order |
| EndToEnd.OutputBounded | src/tntpub/responder.cpp:172-186 | every run: live responders stay within the bound |
| EndToEnd.LibraryStaysConnected | src/tntpub/responder.cpp:88-189 | every run without a bound: a client of the library stays connected whatever the others send |
| EndToEnd.DeliveryGetsThrough | src/tntpub/responder.cpp:161-189 | at any moment a write of the responder and a read of the client give the client all that it is due |
| EndToEnd.SendingGetsThrough | src/tntpub/client.cpp:84-108 | at any moment a flush of the client and a read of the server have all its messages handled |
| EndToEnd.NextKeeps | src/tntpub/client.cpp:54-231 | every single event keeps the invariant behind these results |

## Left out

- Sockets, selectors, connecting and the event loop: a failed read or write is an end of the connection at any moment.
- `DestructionSentry` and handlers that destroy their own client or responder. In particular, when the delivery of a message closes the very connection that it came from, the source goes on inside a deleted object; the model drops the rest of that connection's input.
- Server subclasses whose `onDataMessageReceived` refuses or changes a message, messages that the server itself sends, and callbacks registered at the server.
- The regex engine, and what happens when it refuses a pattern.
- Serialization of objects, JSON output, `checksum`, host name, clock, logging. The data of a message is a sequence of bytes.
- The deserializer's own `message` signal, which repeats what the callback gets.
- Old-format senders: the repository has none, so the old format is related to its layout only.
- The demo programs, tools and benchmarks.
- EndToEnd.DispatchedIsFilteredLog: the clients of the model take their messages through `onInput`; a client that calls `readMessage` is tied to them by `Clients.InputPathsAgree`.
- EndToEnd.SameOrderEverywhere: holds until 2^64 messages have been accepted, after which the serial starts again at 0.
