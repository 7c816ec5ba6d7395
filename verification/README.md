# MyMQ: verification of the broker's core

MyMQ is a message broker in the style of AMQP 0-9-1. This project models its core in Dafny and proves what the
core promises: the durable message store of a queue, the framing of messages on a connection, topic routing, the
broker's metadata with its tables and restarts, the interleaving of the I/O thread with the pool workers, and the
thread pool itself. `dafny verify dfyconfig.toml` checks everything.

Code that changes state step by step is modelled by classes and methods with loops; each method is proved against a
function on values, and the theorems about whole runs, restarts and interleavings are lemmas about those functions.

| part | modules |
|---|---|
| Durable store (`server/message.hpp`) | `Payload` and `RecordFile` give the bytes, `MessageLog` the data file as a list of records, `DurableIndex` the places of records, `QueueSpec` what a store means and what runs of it keep, `MessageStore` the classes whose objects are shared by the three containers |
| Framing (`common/codec.cc`) | `Codec`, `CodecProperties`, `Adler32` |
| Routing (`server/route.hpp`) | `Words`, `Router`, `RouterProperties` |
| Metadata (`server/host.hpp` and its four managers) | `HostSpec` the operations as functions, `HostEffects` what each of them does, `HostProperties` what runs of them keep, `VirtualHost` the classes, `QueueArgs`, `Consumers` |
| Publishing and consuming (`server/channel.hpp`) | `Channel`, `BrokerProtocol` |
| Thread pool (`common/threadpool.hpp`) | `ThreadPool` |
| Ids, files, bytes (`common/help.hpp`) | `Uuid`, `FileHelper`, `Bytes`, `Sequences`, `Arithmetic`, `Options` |

## Main results

- **Store.** Whatever sequence of Insert, Front and Remove runs, delivery is first in first out, every message is
  in exactly one of pending, waiting and acknowledged, and the file's valid records are those recovered at the start
  followed by the durable messages not yet acknowledged. The class keeps its file, index, counters and shared
  objects in step with that; an Insert breaks this exactly when its id is not new or its record's place does not fit
  32 bits. Compaction moves records without changing what any object points at, and its total cost is bounded by the
  number of durable acknowledgements.
- **Framing.** Decoding does not depend on how the stream is cut; a stream of frames is delivered as exactly the
  list that was sent; one changed byte, or two swapped neighbours, in an intact frame is always a checksum error;
  after an error nothing is delivered any more.
- **Routing.** The table never misses a match of section 3.1.3.3 of AMQP 0-9-1, but it does match too much. Its
  exact meaning is proved, and so are the patterns on which it agrees with the standard for every routing key: if and
  only if the pattern has no word other than `#`, or has just one that is preceded by a `#` or is a leading `*`
  followed by a `#`.
- **Metadata.** Each operation's answer and its whole effect are stated by themselves, without the functions the
  model is written with: what is bound under which key, which rows appear and go, which message waits. Every run of requests, failing table insertions, restarts and crashes inside DeleteExchange keeps
  maps, stores and tables consistent, and restarting is projection to what is durable. A crash inside DeleteQueue
  leaves consistent tables if and only if the queue had no durable binding.
- **Server.** As long as a queue is deleted only when no task for it is on its way, no interleaving lets a worker take
  from an empty list or choose from a missing consumer list; any other deletion can be continued to a crash.
- **Pool.** Under every interleaving each accepted task is queued, running or done, exactly one of them; tasks start
  in order, and when all workers have returned all tasks ran once.

Where the code differs from what is written about it, the model follows the code:

- The comment at `server/message.hpp:154` speaks of 4 bytes; the code reads `sizeof(size_t)`, 8.
- `server/route.hpp:80-81` sets a cell on a word match without looking at the words before it, so a topic binding
  can receive messages that section 3.1.3.3 of AMQP 0-9-1 would not route to it (`RouterProperties.FalsePositive`).
- The third loop of `IsLegalBindingKey` (`server/route.hpp:45-49`) can never refuse anything the second let through.
- Recovery refills the durable index only, so a recovered message is neither delivered nor acknowledged again
  (`QueueSpec.RecoveredMessagesStay`).
- An acknowledgement clears one record only: were two valid records to carry one id, the second would stay
  (`QueueSpec.DuplicateStays`); none stays exactly when there was at most one (`QueueSpec.InvalidateTakesOne`).
- Printed queue arguments come back with an extra entry for the empty key (`QueueArgs.ArgsRoundTrip`).

## Model

| member | source | states |
|---|---|---|
| Payload.ParseUndoesSerialize | common/msg.proto:18-29 | The stored bytes of any payload (any id, mode, key, body and flag, empty or not) parse back to that payload |
| Payload.WireFormat | common/msg.proto:18-29 | The encoding field by field: numbers, wire types, order, absent defaults, sign-extended modes |
| Bytes.VarintIs | common/msg.proto:18-29 | A varint has seven bits of the number a byte, continuation bits on all bytes but the last, and no spare byte |
| Bytes.LittleEndianAt | server/message.hpp:124-124 | Each byte of a length prefix is the digit of the length with that weight, least significant first |
| Bytes.BigEndianAt | common/codec.cc:28-29 | Each byte of a 32-bit field on a connection is the digit with that weight, most significant first |
| Bytes.FourBytes | common/codec.cc:128-133 | The number four bytes stand for in network order |
| Payload.FlipKeepsLength | server/message.hpp:65-84 | Clearing the flag of a valid payload does not change the length of its encoding, so it can be rewritten in place |
| FileHelper.Read | common/help.hpp:139-159 | A positioned read succeeds exactly when the range lies inside the file, and then returns the bytes of that range |
| FileHelper.Write | common/help.hpp:161-181 | A positioned write puts the bytes there, keeps every other byte, and grows the file, zero-filled up to the offset, only when it runs past the end |
| RecordFile.WriteRecord | server/message.hpp:116-141 | Writing a length at the end of a file and the body after it appends exactly one length-prefixed record |
| RecordFile.RecordAt | server/message.hpp:152-171 | Reading at the start of any record finds the length of its body, then its body, and ends where the next record starts |
| RecordFile.OverwriteBody | server/message.hpp:77-81 | Overwriting a body by one of the same length replaces that record and moves none |
| MessageLog.ParseFileUndoesEncode | server/message.hpp:143-185 | The file of any well-formed list of records parses completely, into exactly that list |
| MessageLog.AppendRecord | server/message.hpp:116-141 | Appending leaves every record where it was and puts the new payload just after its prefix at the old end |
| MessageLog.OverwriteRecord | server/message.hpp:65-84 | Rewriting the payload of one record in place changes that entry of the list only and moves no record |
| MessageLog.CompactionMovesDown | server/message.hpp:87-113 | Compaction keeps each valid record and never moves it away from the front, so its place still fits 32 bits |
| QueueSpec.GcDueMeansMostlyDead | server/message.hpp:340-346 | The integer-division test holds exactly when there are over 2000 records and fewer valid than dead ones |
| QueueSpec.CollectMeans | server/message.hpp:340-372 | With over 2000 records and fewer valid than dead ones, exactly the valid ones are kept and copied; otherwise the file is left alone and nothing is copied |
| QueueSpec.InvalidateTakesOne | server/message.hpp:65-84 | Whatever the ids in the file: one valid record of the id goes, records of other ids stay, and none of the id is left if and only if there was at most one |
| QueueSpec.DuplicateStays | server/message.hpp:65-84 | With two valid records of one id, one is left after the acknowledgement |
| QueueSpec.LiveCountMeans | server/message.hpp:65-84 | With distinct ids there is at most one valid record of an id |
| QueueSpec.AcceptedAreInserts | server/message.hpp:212-248 | The k-th accepted message of a run has the body and the properties of the k-th insertion, and the flag "1" if and only if its mode is durable |
| QueueSpec.InvalidateRemovesOne | server/message.hpp:65-84 | With distinct ids, marking a record invalid takes exactly that message out of the valid ones and keeps ids distinct |
| QueueSpec.CollectKeepsLive | server/message.hpp:348-372 | Garbage collection keeps the valid records, their order and the distinctness of their ids |
| QueueSpec.RunKeepsInv | server/message.hpp:212-285 | Every run of Insert, Front and Remove keeps: delivery order, conservation of messages, file contents, distinct ids, the garbage bound |
| QueueSpec.RunIsFifo | server/message.hpp:212-259 | After any run, the messages Front returned followed by those pending are the accepted messages in order |
| QueueSpec.RunConserves | server/message.hpp:212-285 | After any run every accepted message is in exactly one of pending, waiting, acknowledged, and everything waiting was delivered |
| QueueSpec.AckTakesEffectIffWaiting | server/message.hpp:261-285 | An acknowledgement changes the state if and only if its id is that of a delivered, unacknowledged message; never for a pending one, and only once |
| QueueSpec.RestartRoundTrip | server/message.hpp:327-336 | The bytes any run leaves parse back, and recovering from them gives exactly the earlier recovered messages and the durable unacknowledged ones, in order, nothing pending or waiting |
| QueueSpec.RecoveredMessagesStay | server/message.hpp:327-336 | A recovered message stays in the file through any run and is never pending or waiting again |
| QueueSpec.RunBoundsGarbage | server/message.hpp:340-372 | After any run the dead records number at most 2000 or at most the valid ones; records copied by all collections plus dead ones are at most the durable acknowledgements |
| QueueSpec.StepCost | server/message.hpp:348-372 | A step shortens the file only by a collection, and exactly the records it copied are added to the cost |
| QueueSpec.RemovesCountDurableAcks | server/message.hpp:261-285 | The count that pays for collections is the number of durable messages acknowledged |
| DurableIndex.IndexLocates | server/message.hpp:116-141 | The index of a file has exactly the ids of its valid records, each with the place of its own record |
| DurableIndex.IndexOfInvalidated | server/message.hpp:261-285 | Invalidating a record removes its id from the index and changes no other entry |
| DurableIndex.IndexOfCompacted | server/message.hpp:348-372 | Copying the new places into the old index gives exactly the index of the compacted file |
| MessageStore.MessageMapper.Append | server/message.hpp:116-141 | The file grows by one record and the position and length, truncated to 32 bits, are those of its payload |
| MessageStore.MessageMapper.Insert | server/message.hpp:60-63 | The message's record is appended to the data file and the object told its place; the file stays well formed exactly when the record is |
| MessageStore.MessageMapper.Remove | server/message.hpp:65-84 | Answers true exactly when the length still agrees; for an object that points at its valid record, that record alone becomes invalid |
| MessageStore.MessageMapper.ReadMessage | server/message.hpp:152-173 | Reading at the start of record i returns its payload and the start of record i+1; neither read can fail |
| MessageStore.MessageMapper.Load | server/message.hpp:143-185 | Returns exactly the valid records of the file, in order |
| MessageStore.MessageMapper.WriteAll | server/message.hpp:97-107 | Rewriting a list of payloads into an empty file gives the file of that list and the place of each |
| MessageStore.MessageMapper.Gc | server/message.hpp:87-113 | The file is replaced by one holding exactly the valid records in order, and the new places are returned |
| MessageStore.QueueMessage.constructor | server/message.hpp:206-210 | A new store has nothing in memory and zero counters until it is recovered |
| MessageStore.QueueMessage.Front | server/message.hpp:250-259 | Hands out the oldest pending object itself and moves it to the waiting map; the store still holds together |
| MessageStore.QueueMessage.Persist | server/message.hpp:232-244 | Stores and indexes a durable object; file, index and counters stay in step exactly when its place fits 32 bits |
| MessageStore.QueueMessage.Insert | server/message.hpp:212-248 | The new pending object has the given body and the caller's properties (or the given id, and the durable mode exactly when asked); a durable one is also the last record, with flag "1"; the store holds together afterwards if and only if the id is new and the place fits |
| MessageStore.QueueMessage.Relocate | server/message.hpp:353-369 | Every relocated record's object gets its new place; the logic-error branch cannot be reached |
| MessageStore.QueueMessage.Gc | server/message.hpp:348-372 | Compacts exactly when the test says so; the shared objects then point at their records in the new file |
| MessageStore.QueueMessage.Discard | server/message.hpp:275-278 | Invalidates the record of this message and no other, and drops it from the index |
| MessageStore.QueueMessage.Remove | server/message.hpp:261-285 | True exactly for an id that is waiting; the new state is that of the specification, and the store still holds together |
| MessageStore.QueueMessage.Reindex | server/message.hpp:330-333 | One fresh object for each recovered record, together showing exactly the index of the file |
| MessageStore.QueueMessage.Recovery | server/message.hpp:327-336 | Refills only the index: the state is the valid records with nothing pending or waiting, and the store holds together |
| MessageStore.AppendedIffFits | server/message.hpp:116-141 | Appending a new message's record keeps index and file in step if and only if its place fits the 32-bit fields |
| MessageStore.ValidStoreFile | server/message.hpp:188-200 | A store that holds together: file bytes parse completely, valid ids are the index keys, each object delimits exactly its own bytes, pending and waiting durable messages are the indexed objects, counters are right |
| MessageStore.IndexSize | server/message.hpp:327-336 | The index has one entry for each valid record |
| MessageStore.LeftFileIsRecoverable | server/message.hpp:327-336 | The file left by any store that holds together meets everything recovery needs |
| MessageStore.OpenQueue | server/message.hpp:403-415 | Creating a store over such a file and recovering it gives the recovered state |
| MessageStore.CompactionKeepsIndexed | server/message.hpp:348-372 | Compaction keeps the indexed ids and the payload of each |
| MessageStore.Restart | server/message.hpp:327-336 | A store opened over the file another left indexes exactly the same ids and payloads, with both counters equal to their number |
| Uuid.UuidHelper.Generate | common/help.hpp:97-115 | The generated id is the formatted random bytes and the next counter value, and the counter advances by one, wrapping at 2^64 |
| Uuid.Layout | common/help.hpp:97-115 | 36 characters: lower-case hexadecimal digits of the random bytes and of the counter, most significant first, with dashes after 8, 12, 16 and 20 digits |
| Uuid.DifferentCountersDiffer | common/help.hpp:108-113 | Ids made from different counter values differ whatever the random bytes |
| Uuid.GeneratedIdsDiffer | common/help.hpp:97-115 | Two ids one process generates differ unless 2^64 or more were generated from one to the other |
| Adler32.ChecksumIsClosedForm | common/codec.cc:66-69 | The running fold equals the sums of section 8.2 of RFC 1950 and fits 32 bits |
| Adler32.OneByteChangesChecksum | common/codec.cc:190-196 | Changing any one byte changes the checksum |
| Adler32.SwapChangesChecksum | common/codec.cc:190-196 | Swapping two different neighbouring bytes changes the checksum |
| Codec.FillEmptyBuffer | common/codec.cc:22-74 | The buffer ends up holding the frame: by position, a length of everything behind it, the name length, the name, a zero byte, the data, and four bytes that read in network order as the sums of section 8.2 of RFC 1950 |
| Codec.FrameIs | common/codec.cc:22-74 | Every frame consists of those parts, whatever the message |
| Codec.TrailerIsAdler | common/codec.cc:66-70 | Four bytes are the trailer if and only if, in network order, they read as the checksum's sums |
| Codec.AsInt32Is | common/codec.cc:128-133 | The signed number four bytes stand for in network order |
| Codec.AsInt32OfSmall | common/codec.cc:128-133 | Reading back a written length below 2^31 gives that length |
| Codec.AsInt32Injective | common/codec.cc:128-133 | Comparing two fields as signed numbers is comparing their bytes |
| Codec.Parse | common/codec.cc:186-235 | For any bytes and accepted length every read stays inside the frame; a checksum error if and only if the last four bytes do not read as the sums of what precedes them; each other error, and the name and data delivered, told by position |
| Codec.ParseBodyIs | common/codec.cc:186-235 | The same of the contents of every frame: which error when, and which bytes are name and data |
| Codec.OnMessage | common/codec.cc:135-167 | The call terminates; messages, leftover bytes and stop reason are those of decoding the whole buffer |
| CodecProperties.HeadIsRefusedIff | common/codec.cc:139-147 | Fewer than 14 bytes wait; a length field is refused exactly below 10 or above 67108864; an incomplete frame waits |
| CodecProperties.DecodeContinues | common/codec.cc:135-167 | Decoding a longer stream goes on exactly where decoding its beginning stopped |
| CodecProperties.ErrorIsAbsorbing | common/codec.cc:155-160 | After an error more bytes deliver nothing and leave the same error |
| CodecProperties.ChunkingDoesNotMatter | common/codec.cc:135-167 | However a stream is cut into reads, the deliveries, the leftover and the error are those of decoding it at once |
| CodecProperties.ParseUndoesEncode | common/codec.cc:186-235 | Parsing the contents of an encoded message gives it back, or the error that says which requirement it misses |
| CodecProperties.FrameIsDeliveredIff | common/codec.cc:135-167 | The frame at the head of a stream is delivered if and only if its message is deliverable; otherwise no byte is taken and the error says why |
| CodecProperties.StreamRoundTrip | common/codec.cc:135-167 | A concatenation of frames of deliverable messages is delivered as exactly that list with nothing left over |
| CodecProperties.ChangedByteIsDetected | common/codec.cc:190-196 | Any one changed byte after the length field of an intact frame is a checksum error |
| CodecProperties.SwappedBytesAreDetected | common/codec.cc:190-196 | Swapping two different neighbouring bytes of the checksummed part is a checksum error |
| CodecProperties.DamagedFrameStopsStream | common/codec.cc:135-167 | A frame damaged in one byte stops the stream: nothing behind it is delivered, whatever follows |
| Words.JoinUndoesSplit | common/help.hpp:71-73 | Joining the pieces gives the string back and no piece holds the separator |
| Words.SplitUndoesJoin | common/help.hpp:71-73 | Splitting joined separator-free pieces, empty ones included, gives exactly those pieces |
| Router.IsLegalRoutingKey | server/route.hpp:13-23 | True exactly for keys of ASCII letters, digits, underscores and dots |
| Router.IsLegalBindingKey | server/route.hpp:25-52 | True exactly when also `*` and `#` occur only as whole words; the third loop never refuses |
| Router.FillFirstColumn | server/route.hpp:68-76 | The first column is true exactly for prefixes of `#` words; the rest of the table stays false |
| Router.FillRow | server/route.hpp:78-85 | One round of the outer loop completes its row and leaves every other row alone |
| Router.Route | server/route.hpp:54-88 | The in-place table ends with the value of the recurrence; direct matches exactly equal keys, fanout always, and an unknown type like topic |
| RouterProperties.CellIsMeaning | server/route.hpp:78-85 | Closed form of every inner cell in terms of the last word that is not `#` |
| RouterProperties.TableMeaning | server/route.hpp:67-87 | Exactly when the finished table says yes, for all patterns and keys |
| RouterProperties.RoutesMeaning | server/route.hpp:54-88 | For each exchange type and all keys, exactly when a message is routed |
| RouterProperties.NoFalseNegatives | server/route.hpp:67-87 | Whenever the relation of section 3.1.3.3 of AMQP 0-9-1 matches, the table says yes |
| RouterProperties.TopicNeverMissesMatch | server/route.hpp:54-88 | The same for keys as strings on a topic exchange |
| RouterProperties.FalsePositive | server/route.hpp:80-81 | A concrete key that the table routes although the standard does not |
| RouterProperties.ExactIffExactPattern | server/route.hpp:67-87 | A pattern agrees with the standard on all keys without `#` words if and only if it has one of the exact shapes |
| RouterProperties.ExactIffAlwaysExactPattern | server/route.hpp:67-87 | The same over all keys, `#` words included |
| RouterProperties.LegalBindingIsExactIff | server/route.hpp:25-88 | A legal binding key gets exactly the standard's messages among legal routing keys if and only if its pattern has an exact shape |
| Consumers.QueueConsumer.constructor | server/consumer.hpp:54-54 | A new list is empty and starts at counter 0 |
| Consumers.QueueConsumer.Create | server/consumer.hpp:56-68 | A tag already present is refused and nothing changes; otherwise the consumer is appended; tags stay distinct |
| Consumers.QueueConsumer.Remove | server/consumer.hpp:70-81 | The consumer with the tag, and no other, is gone; order is kept |
| Consumers.QueueConsumer.Choose | server/consumer.hpp:83-93 | Nothing for an empty list; otherwise the consumer at the counter modulo the size, and the counter moves on |
| Consumers.QueueConsumer.Exists | server/consumer.hpp:95-105 | True exactly when some consumer has the tag |
| Consumers.ConsumerManager.constructor | server/consumer.hpp:144-144 | No queue has a list |
| Consumers.ConsumerManager.InitQueueConsumer | server/consumer.hpp:146-157 | A queue without a list gets an empty one; every other list, and an existing one, is kept |
| Consumers.ConsumerManager.Create | server/consumer.hpp:159-170 | Refused without a list or for a tag the list has; otherwise that queue's list alone grows by the consumer |
| Consumers.ConsumerManager.Remove | server/consumer.hpp:172-182 | The tag leaves that queue's list, if there is one; all other lists are unchanged |
| Consumers.ConsumerManager.DestroyQueueConsumer | server/consumer.hpp:184-194 | The queue's list is gone, all others are unchanged |
| Consumers.ConsumerManager.Choose | server/consumer.hpp:196-206 | Round robin in that queue's list; only that queue's counter moves |
| Consumers.ConsumerManager.Exists | server/consumer.hpp:214-223 | True exactly when the queue has a list holding the tag |
| Consumers.CounterValue | server/consumer.hpp:88-89 | After k choices the counter is its start plus k, modulo 2^64 |
| Consumers.ChoicesAreFair | server/consumer.hpp:83-93 | While the counter does not wrap, over any number of choices every consumer gets its share, and any two differ by at most one |
| Consumers.WrapRepeats | server/consumer.hpp:88-89 | If the counter wraps inside a round and the size does not divide 2^64, some consumer is taken twice |
| Consumers.EachOnceIff | server/consumer.hpp:83-93 | A round of n choices takes each of n consumers once if and only if the counter does not wrap on the way or n divides 2^64 |
| QueueArgs.MsgQueue.SetArgs | server/msgqueue.hpp:31-42 | The loop adds one entry for each piece of the string, later ones replacing earlier ones |
| QueueArgs.MsgQueue.GetArgs | server/msgqueue.hpp:44-53 | Every entry is printed once, in some order of the map's own |
| QueueArgs.PlainPieceParses | server/msgqueue.hpp:37-40 | A piece without `=` becomes a key with itself as value |
| QueueArgs.ArgsRoundTrip | server/msgqueue.hpp:31-53 | For every iteration order, parsing the printed arguments gives them back plus the entry for the empty key |
| QueueArgs.ArgsRoundTripIff | server/msgqueue.hpp:31-53 | With no empty key, that holds if and only if no key has `=` or `&` and no value has `&` |
| ThreadPool.RunKeepsInv | common/threadpool.hpp:55-133 | Every interleaving of enqueue, stop, take, finish and exit keeps order, accounting and closedness |
| ThreadPool.EnqueueAccepts | common/threadpool.hpp:86-90 | Enqueueing puts the task at the end of the queue; once stopped it changes nothing |
| ThreadPool.OldestTaskCanRun | common/threadpool.hpp:113-120 | An idle worker can take the oldest task, stopped or not, run it and be idle again |
| ThreadPool.NothingAcceptedAfterStop | common/threadpool.hpp:127-129 | After the flag is set only a push that had passed its test is accepted |
| ThreadPool.StoppedPoolCanExit | common/threadpool.hpp:109-132 | From whatever state it is stopped in, a pool can go on until all its workers have returned |
| ThreadPool.EveryTaskIsAccountedFor | common/threadpool.hpp:85-121 | Each accepted task is exactly one of queued, running, done; tasks start in the order accepted; none runs twice |
| ThreadPool.NothingAfterExit | common/threadpool.hpp:115-118 | After some worker returned, the queue stays empty and no task is accepted |
| ThreadPool.JoinedMeansAllDone | common/threadpool.hpp:127-133 | When all workers of a pool with at least one have returned, every accepted task ran exactly once |
| ThreadPool.ServerPoolFinishesInOrder | server/broker.hpp:40-40 | With the server's single worker, tasks also finish in the order accepted |
| ThreadPool.NoWorkersNoGuarantee | common/threadpool.hpp:24-24 | With the default of zero workers an accepted task may never run |
| HostEffects.BindBinds | server/binding.hpp:135-150 | Succeeds unless a row is needed and fails; a new binding, and its row if durable, gets the asked key, an existing one keeps its own, every other binding and row stays; failing changes nothing |
| HostEffects.UnBindUnbinds | server/binding.hpp:152-161 | The binding and exactly its rows go; unbinding what is not bound changes nothing |
| HostEffects.RemoveExchangeClears | server/binding.hpp:163-168 | Exactly the exchange's bindings and rows go |
| HostEffects.RemoveQueueClears | server/binding.hpp:170-179 | Exactly the queue's bindings and rows go |
| HostEffects.InitStoreOpens | server/message.hpp:403-415 | An open store stays; otherwise one opens with the valid records of the queue's file and nothing in memory |
| HostEffects.DestroyStoreCloses | server/message.hpp:417-428 | The store goes and its records with it; no file comes back, no other store changes |
| HostEffects.RemoveAcks | server/message.hpp:455-465 | Exactly for a waiting id: it waits no longer, a durable one loses one valid record, pending messages, other waiting ones and other stores stay |
| HostEffects.AckedOnlyOnce | server/message.hpp:261-285 | A second acknowledgement of the id fails and changes nothing |
| HostEffects.AckedRecordIsGone | server/message.hpp:261-285 | With distinct ids no valid record of an acknowledged durable message is left |
| HostEffects.DeclareExchangeDeclares | server/exchange.hpp:156-174 | Answer and effect: the exchange as declared, its row exactly if durable, everything else as before |
| HostEffects.DeleteExchangeDeletes | server/host.hpp:50-54 | The exchange, its row, its bindings and their rows go, nothing else |
| HostEffects.DeclareQueueDeclares | server/host.hpp:63-71 | Answer and effect: the store is open in any case, the queue as declared, its row exactly if durable |
| HostEffects.DeleteQueueDeletes | server/host.hpp:74-79 | The queue, its row, bindings, their rows and its store go, nothing else |
| HostEffects.BindQueueBinds | server/host.hpp:81-96 | Fails without an end or when a needed row fails, and changes nothing then; otherwise the pair is bound under the asked key if it was not bound before |
| HostEffects.UnBindQueueUnbinds | server/host.hpp:98-103 | The binding and its rows go, nothing else, whether or not the ends exist |
| HostEffects.PublishPublishes | server/host.hpp:116-125 | Exactly for a queue with a store: the message is the newest pending one and, if durable, the newest record |
| HostEffects.AckAcks | server/host.hpp:127-137 | True exactly for a waiting id of an existing queue; then the message is gone, otherwise nothing changes |
| HostEffects.ConsumeConsumes | server/host.hpp:139-142 | The oldest pending message leaves the list and waits; nothing else changes |
| HostEffects.RestartRestarts | server/host.hpp:25-38 | What is rebuilt from any tables and files, duplicate rows included: exchanges, queues, a binding for each pair with a row, with the key of its first, recovered stores, other files untouched |
| HostEffects.StartRestarts | server/host.hpp:25-38 | The same of a host constructed over tables and files |
| HostEffects.StepHasEffect | server/host.hpp:25-142 | Every step of a run of host operations has the effect of its operation |
| HostProperties.BindKeeps | server/binding.hpp:135-150 | Binding keeps bindings and their table consistent, also when the insertion fails |
| HostProperties.UnBindKeeps | server/binding.hpp:152-161 | Unbinding does too |
| HostProperties.RemoveExchangeKeeps | server/binding.hpp:163-168 | Removing an exchange's bindings leaves them consistent with and without the exchange |
| HostProperties.RemoveQueueKeeps | server/binding.hpp:170-179 | Removing a queue's bindings leaves them consistent without the queue |
| HostProperties.RebuildReads | server/binding.hpp:100-119 | The map read back from a table without duplicate rows holds exactly the bindings the rows list |
| HostProperties.DeclareExchangeKeeps | server/exchange.hpp:156-174 | Declaring keeps integrity, fails only when a needed insertion fails, and then changes nothing |
| HostProperties.DeleteExchangeKeeps | server/host.hpp:50-54 | Deleting keeps integrity after each of its two steps |
| HostProperties.DeclareQueueKeeps | server/host.hpp:63-71 | Declaring a queue keeps integrity and fails only when a needed insertion fails |
| HostProperties.DeleteQueueKeeps | server/host.hpp:74-79 | Deleting a queue keeps integrity |
| HostProperties.RestartKeeps | server/host.hpp:25-38 | Starting over the tables gives integrity again, with exactly the durable bindings and their keys |
| HostProperties.RunKeepsIntegrity | server/host.hpp:25-142 | Every run of requests, failing insertions, restarts and crashes inside DeleteExchange: no dangling binding, every queue has a store, each table holds exactly what is durable |
| HostProperties.RestartIsProjection | server/host.hpp:25-38 | After any run, restarting gives exactly the durable exchanges, durable queues, bindings between them, and stores with the valid records of their files |
| HostProperties.CrashInDeleteQueue | server/host.hpp:74-79 | A crash after the first step of DeleteQueue rebuilds consistently if and only if the queue had no durable binding |
| VirtualHost.ExchangeManager.constructor | server/exchange.hpp:150-154 | Starts with what the table holds |
| VirtualHost.ExchangeManager.DeclareExchange | server/exchange.hpp:156-174 | An existing name succeeds unchanged; a durable one is inserted into the table first and refused if that fails |
| VirtualHost.ExchangeManager.DeleteExchange | server/exchange.hpp:176-184 | Removes the exchange, and its row if it was durable |
| VirtualHost.ExchangeManager.SelectExchange | server/exchange.hpp:186-194 | The exchange of that name, or none |
| VirtualHost.MsgQueueManager.constructor | server/msgqueue.hpp:149-152 | Starts with what the table holds |
| VirtualHost.MsgQueueManager.DeclareQueue | server/msgqueue.hpp:154-177 | An existing name succeeds unchanged; a durable one is inserted into the table first and refused if that fails |
| VirtualHost.MsgQueueManager.DeleteQueue | server/msgqueue.hpp:179-187 | Removes the queue, and its row if it was durable |
| VirtualHost.MsgQueueManager.SelectQueue | server/msgqueue.hpp:189-198 | The queue of that name, or none |
| VirtualHost.BindingManager.constructor | server/binding.hpp:129-133 | Reading the rows one by one gives the rebuilt two-level map |
| VirtualHost.BindingManager.Bind | server/binding.hpp:135-150 | Answer, map and table: a new binding is recorded under the asked key, with a row exactly if durable; refused, with nothing changed, when the row fails |
| VirtualHost.BindingManager.UnBind | server/binding.hpp:152-161 | The binding and exactly its rows go |
| VirtualHost.BindingManager.RemoveExchangeBindings | server/binding.hpp:163-168 | The exchange and its rows are gone, all else is kept |
| VirtualHost.BindingManager.RemoveMsgQueueBindings | server/binding.hpp:170-179 | The loop removes the queue from every exchange, and its rows |
| VirtualHost.BindingManager.GetExchangeBindings | server/binding.hpp:181-186 | Returns the exchange's bindings; an unknown exchange is entered, but nothing becomes bound |
| VirtualHost.BindingManager.Exists | server/binding.hpp:195-204 | True exactly when the queue is bound to the exchange |
| VirtualHost.MessageManager.constructor | server/message.hpp:399-401 | No store is open, the data files are as they were |
| VirtualHost.MessageManager.InitQueueManager | server/message.hpp:403-415 | Opens and recovers a store unless one is open |
| VirtualHost.MessageManager.DestroyQueueMessage | server/message.hpp:417-428 | An open store disappears with its file; without one nothing happens |
| VirtualHost.MessageManager.Insert | server/message.hpp:430-440 | Fails without a store; otherwise inserts into that store only, with the queue's durability as default mode |
| VirtualHost.MessageManager.Front | server/message.hpp:442-452 | None without a store; otherwise the oldest pending message of that store |
| VirtualHost.MessageManager.Ack | server/message.hpp:455-465 | True exactly when the id is waiting in that store; then it is gone from there and nothing else changes |
| VirtualHost.VirtualHost.constructor | server/host.hpp:25-38 | The loop opens exactly one recovered store for each queue of the table |
| VirtualHost.VirtualHost.DeclareExchange | server/host.hpp:56-61 | Answer and whole new state are those of the specification |
| VirtualHost.VirtualHost.DeleteExchange | server/host.hpp:50-54 | Bindings first, then the exchange: the whole new state |
| VirtualHost.VirtualHost.DeclareQueue | server/host.hpp:63-71 | Opens the store, then declares: answer and whole new state, also when declaring fails |
| VirtualHost.VirtualHost.DeleteQueue | server/host.hpp:74-79 | Queue, bindings and store are gone: the whole new state |
| VirtualHost.VirtualHost.Bind | server/host.hpp:81-96 | Refused without exchange or queue; otherwise bound under the asked key unless bound before, with a row exactly when both are durable; everything else stays |
| VirtualHost.VirtualHost.UnBind | server/host.hpp:98-103 | The binding is gone whether or not exchange and queue exist |
| VirtualHost.VirtualHost.BasicPublish | server/host.hpp:116-125 | Refused without the queue; otherwise its store alone gets a message with the given body and properties, by default with the generated id and the queue's durability |
| VirtualHost.VirtualHost.BasicAck | server/host.hpp:127-137 | True exactly when the id is waiting in the queue's store; then it waits no longer, its record is cleared if durable, and nothing else changes |
| VirtualHost.VirtualHost.BasicConsume | server/host.hpp:139-142 | None without a store; otherwise takes the oldest pending message |
| Channel.LookUpKeeps | server/binding.hpp:181-186 | Entering an exchange without bindings keeps the host consistent |
| Channel.Channel.BasicPublish | server/channel.hpp:110-137 | The loop delivers to exactly the bound queues whose key routes, and enqueues exactly one consume task for each |
| Channel.TargetsByType | server/channel.hpp:126-131 | A direct exchange serves exactly the queues bound under the message's key, a fanout exchange all bound queues, any other those whose pattern the table accepts |
| Channel.TargetsExist | server/channel.hpp:126-131 | In a consistent host every target is a queue with an open store |
| Channel.PublishReachesExactlyTargets | server/channel.hpp:125-135 | In a consistent host each such queue gets the message at the end of its pending list and, if durable, of its file; every other store is unchanged |
| BrokerProtocol.FrontIsSafe | server/channel.hpp:179-195 | Whenever a worker holds a task, its queue has a pending message and a consumer list |
| BrokerProtocol.RunKeepsInv | server/channel.hpp:80-137 | Every interleaving keeps the host consistent and, for each queue, pending messages equal to tasks on their way |
| BrokerProtocol.RunNeverCrashes | server/channel.hpp:179-195 | With queues deleted only while quiet, Front never meets an empty list and Choose never a missing consumer list, from any start over consistent tables |
| BrokerProtocol.PublishStepsDeliver | server/channel.hpp:110-137 | Uninterrupted, the protocol's publish steps do what the channel's BasicPublish promises, in any order of the queues |
| BrokerProtocol.DeclareRuns | server/channel.hpp:80-89 | Uninterrupted, declaring a queue has the effect of the host's declaration and sets up the consumer list exactly if it succeeds |
| BrokerProtocol.DeleteRuns | server/channel.hpp:91-96 | Uninterrupted, deleting has the effect of the host's deletion and drops the consumer list |
| BrokerProtocol.OtherRequestDoes | server/channel.hpp:68-108 | Every other request has the effect of its host operation and no other |
| BrokerProtocol.AutoAckAcks | server/channel.hpp:194-194 | A worker's acknowledgement takes exactly that message out of the queue's store |
| BrokerProtocol.ConsumeTaskRuns | server/channel.hpp:179-195 | The oldest task is run and hands out the oldest message of its queue |
| BrokerProtocol.UnquietDeletionCanCrash | server/channel.hpp:91-96 | From any reachable state, deleting a queue that is not quiet can be continued to a crash |

## Left out

- MessageStore.QueueMessage.Recovery: proved for files whose valid records have distinct ids and places below 2^32, which is what every store that holds together leaves behind (`MessageStore.LeftFileIsRecoverable`); malformed files and failing reads are not modelled.
- MessageStore.QueueMessage.Front: asks for a pending message, as `front()` of a list does; `BrokerProtocol.RunNeverCrashes` says when that holds.
- MessageStore.MessageMapper.Gc: payloads and places are returned as values instead of temporary message objects; creating, removing and renaming the two files is replacing their contents.
- VirtualHost.MessageManager.Insert: each store of the manager is represented by its meaning, which `MessageStore.QueueMessage` is proved to implement; several store objects side by side, and that they share no message object, are not modelled.
- VirtualHost.BindingManager.Bind: a table is a map or a list of rows whose insertions may fail; SQL text, quoting and failing deletions are not modelled.
- VirtualHost.ExchangeManager.DeclareExchange: exchanges and queues carry type and flags but not their arguments, which `QueueArgs` treats for queues; exchange arguments are discarded when a row is read back.
- Codec.Parse: which names are registered and which bytes parse as which type are parameters; protobuf reflection is not modelled, nor are messages of 2^31 bytes and more.
- Payload.ParseUndoesSerialize: strings are byte strings (UTF-8 is not checked); the parser accepts the fields in any order and repeated, but not unknown fields or groups.
- Channel.Channel.BasicPublish: a request without properties reads an uninitialised variable and is not modelled.
- BrokerProtocol.RunNeverCrashes: recovery of a store is one step with opening it; adding and cancelling consumers, consumer callbacks and the lifetime of channels are not part of the protocol.
- HostProperties.CrashInDeleteQueue: says what a crash between the first two steps leaves; integrity over runs is claimed between operations and for crashes inside DeleteExchange.
- ThreadPool.JoinedMeansAllDone: safety only; whether a worker is always woken at shutdown, tasks that throw, and futures are not modelled.
- Consumers.QueueConsumer.Choose: narrowing the index to `int` is not modelled (lists of 2^31 consumers).
- Consumers.ConsumerManager.Choose: asks for a list, without which the source follows a null pointer; `BrokerProtocol.RunNeverCrashes` says when there is one. The protocol keeps only which queues have a list.
- Crashes and write errors inside one insertion into the data file.
- Clear on the host and its managers, and GetBinding, which nothing in the broker calls.
- Networking, event loops, the dispatcher, the connection handlers, the client, logging, and creation of directories.
