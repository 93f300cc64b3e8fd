# Verified model of the chat server's packet, queue and container core

This project models the parts of the server that carry its data, and proves
what they are relied on for. `dafny verify dfyconfig.toml` checks everything.

| file | what it models |
|---|---|
| `LinearHashTable.dfy` | Poco's linear hash table and its iterators |
| `LruCache.dfy` | `AbstractCache` with `LRUStrategy`: value map, list and index kept in step |
| `ExpireStrategy.dfy`, `ExpireCache.dfy` | `ExpireStrategy` and `AccessExpireStrategy` over a clock, and `AbstractCache` with either |
| `Receive.dfy` | `NetworkBuffer`, `PacketSession::OnRecv` and `NetworkSession::ProcessRecv` |
| `Varint.dfy`, `WireFields.dfy`, `Utf8.dfy`, `Messages.dfy` | the protobuf codec: varints, fields with groups, the check of texts, the generated messages |
| `PacketMemory.dfy` | `PacketChunk`, `Packet`, `PacketManager`: bump allocation and reference-counted recycling; each method is a run of `PacketSteps` |
| `PacketSteps.dfy` | the same as a step system of all threads, whose steps interleave freely |
| `PacketSizes.dfy` | the constants of packet memory |
| `Pipeline.dfy` | `MakePacketBuffer`, the handler, and messages from one end to the other |
| `DbQueue.dfy`, `DbProgress.dfy` | `DBService` and `DBLoadBalancer` as a step system of all threads; that it cannot get stuck |
| `MemoryPool.dfy`, `PoolLimits.dfy` | `FastMemoryPool` and its free list inside the blocks; how large it gets |
| `FifoBuffer.dfy` | `BasicFIFOBuffer` and its events |
| `Hmac.dfy` | `HMACEngine` against section 2 of RFC 2104 |
| `ListMap.dfy` | `ListMap` |
| `Bytes.dfy`, `Arithmetic.dfy`, `Lists.dfy`, `Options.dfy` | words in bytes, remainders, erasure from a list, optional values |

Classes that change their fields in place are classes here, with methods proved
against functions on values. The lemmas are about those functions and about runs
of them. Exceptions and error returns are results. Clock readings, the order in
which a concurrent queue yields its elements, the place operator new finds for a
bucket, and what other threads do between two atomic steps are parameters or
arbitrary choices. The DB service is modelled twice: as a step system, over which
the properties of all interleavings are proved, and as the class with its loops,
which is proved to be a run of that system. So is the packet allocator:
the methods of its classes run one at a time, each is proved to be a run of the step
system's steps, and that packets share no byte is proved of the steps and carried over.

A completed receive runs `NetworkSession::ProcessRecv`
(`Server/ServerCore/NetworkSession.cpp`, lines 409-444): `OnWrite`, `OnRecv` on the
unread bytes, `OnRead` of what it processed, `Clean`; `RegisterRecv` (lines 247-290)
then posts the free space. `Session.ProcessRecv`, `Session.Receive` and
`ReceiveStream` model this; their rows below cite the buffer they drive.

Where code and documentation differ, the model follows the code:

- `FastMemoryPool` documents `maxAlloc` as a limit in bytes, and `allocated()` and
  `available()` as bytes. The code compares `maxAlloc` with a number of bucket
  pointers, and both functions count blocks. `BucketLimit` and `LimitReached` give
  the exact limit, `ByteLimit` the exact condition under which the documented one
  holds, and `ByteLimitIsExceeded` that no accepted pool meets it. The promise that
  a refused allocation leaves the pool intact is kept (`RefusalLeavesIntact`); it is
  made for this case only, and `BadAllocLeavesIntact` says exactly when the same is
  true of an allocation that fails otherwise.
- `BasicFIFOBuffer` describes the writable event as telling writability. It tells
  transitions of fullness: taking from a full buffer at EOF, or clearing a flag of a
  full buffer, announces a buffer as writable that is not.
  `WritableIsKnown` says exactly when an observer is misled.
- A message whose text is not UTF-8 is serialised, with a log entry, and refused
  by every parser. `RoundTrip` and `ConcatenationIsMerge` say exactly when,
  `TextArrives` says it in terms of Unicode, and `RefusedText` gives an instance.
- `AbstractCache::doGet` removes an entry that the strategy calls invalid. Under
  the LRU strategy that branch is dead, which `LruCache.Get` proves.

## Model

| member | source | states |
|---|---|---|
| LinearHashTables.AddressInRange | Server/Include/Poco/LinearHashTable.h:429-444 | every computed address is below front + split, so it falls on an existing bucket |
| LinearHashTables.AddressIsExact | Server/Include/Poco/LinearHashTable.h:429-444 | the address in full: a hash modulo twice the front is its own address if there is such a bucket, and else waits in the bucket yet to be split |
| LinearHashTables.AddressAfterSplit | Server/Include/Poco/LinearHashTable.h:446-465 | advancing the split pointer changes the address only of values in the bucket it leaves, and only to the new last bucket |
| LinearHashTables.AddressAfterDoubling | Server/Include/Poco/LinearHashTable.h:448-453 | doubling front with the split pointer restarted changes no address |
| LinearHashTables.SplitPreserves | Server/Include/Poco/LinearHashTable.h:446-465 | split keeps every value, the placement invariant and every bucket except the one split and the new one |
| LinearHashTables.MergePreserves | Server/Include/Poco/LinearHashTable.h:467-485 | merge keeps every value, the placement invariant and every bucket except the last and the one it goes back to; neither split nor front underflows |
| LinearHashTables.MergeUndoesSplit | Server/Include/Poco/LinearHashTable.h:446-485 | a merge right after a split restores the table up to the order inside the one bucket |
| LinearHashTables.FindIsMembership | Server/Include/Poco/LinearHashTable.h:337-347 | looking in one bucket finds a value exactly when it is stored anywhere |
| LinearHashTables.InsertRefines | Server/Include/Poco/LinearHashTable.h:356-383 | insert keeps the invariant and is set insertion |
| LinearHashTables.EraseAtRefines | Server/Include/Poco/LinearHashTable.h:385-394 | erasing at an iterator keeps the invariant and removes exactly the value pointed at |
| LinearHashTables.EraseRefines | Server/Include/Poco/LinearHashTable.h:396-401 | erase keeps the invariant and is set removal, also for absent values |
| LinearHashTables.SizeCounts | Server/Include/Poco/LinearHashTable.h:410-414 | _size is the number of distinct stored values |
| LinearHashTables.RunRefinesSet | Server/Include/Poco/LinearHashTable.h:356-408 | over every run of insert, erase and clear: buckets = front + split = size + 1, split at most front, front a power of two, every value in its bucket once, and the contents are those of a mathematical set |
| LinearHashTables.SuccessorAdvances | Server/Include/Poco/LinearHashTable.h:146-158 | one increment moves to the next stored value, over any pattern of empty buckets |
| LinearHashTables.IterationVisitsAllOnce | Server/Include/Poco/LinearHashTable.h:146-158 | from begin() the end is reached after exactly _size increments and not before, each value having been met once |
| LinearHashTables.LinearHashTable.Find | Server/Include/Poco/LinearHashTable.h:337-347 | the iterator is at the value, or is end() exactly when the value is absent |
| LinearHashTables.LinearHashTable.Insert | Server/Include/Poco/LinearHashTable.h:356-383 | the new state, the set it stands for, whether something was inserted, and that the iterator is at the value |
| LinearHashTables.LinearHashTable.EraseIterator | Server/Include/Poco/LinearHashTable.h:385-394 | exactly the element at the iterator goes; at end() nothing happens |
| LinearHashTables.LinearHashTable.Erase | Server/Include/Poco/LinearHashTable.h:396-401 | the new state and the set it stands for |
| LinearHashTables.LinearHashTable.Clear | Server/Include/Poco/LinearHashTable.h:403-408 | the table is the empty one |
| LinearHashTables.LinearHashTable.Split | Server/Include/Poco/LinearHashTable.h:446-465 | the in-place loop computes the function SplitPreserves is about |
| LinearHashTables.LinearHashTable.Merge | Server/Include/Poco/LinearHashTable.h:467-485 | the in-place loop computes the function MergePreserves is about |
| LinearHashTables.LinearHashTable.BeginIterator | Server/Include/Poco/LinearHashTable.h:304-317 | the iterator is at the first stored value, or at the end of an empty table |
| LinearHashTables.LinearHashTable.End | Server/Include/Poco/LinearHashTable.h:319-323 | the end iterator stands behind the last bucket |
| LinearHashTables.Iterator.Increment | Server/Include/Poco/LinearHashTable.h:146-158 | the loop over empty buckets moves to the position SuccessorAdvances is about; at the end it stays |
| LruCaches.RunIsRecencyOrdered | Server/Include/Poco/AbstractCache.h:224-368 | over every run the cache holds at most size entries, strictly ordered by last use, keys unrepeated, each with the value last given to its key |
| LruCaches.EvictsLeastRecentlyUsed | Server/Include/Poco/LRUStrategy.h:104-128 | an addition evicts only from a full cache, only the entry least recently used, never the key just added, and nothing else |
| LruCaches.EvictionNeedsUses | Server/Include/Poco/LRUStrategy.h:104-128 | an entry is evicted only after size different other keys have been used since its own use |
| LruCaches.Retained | Server/Include/Poco/LRUStrategy.h:78-128 | a key stays cached while it is not removed and fewer than size other keys are used |
| LruCaches.StepIsExact | Server/Include/Poco/AbstractCache.h:224-353 | each operation in full: a removal cuts out the entry and keeps the others in order, a clear leaves none, a hit moves the entry to the front, an addition puts one in front in place of the old one or of the last |
| LruCaches.NeverStale | Server/Include/Poco/AbstractCache.h:224-368 | over every run the cache holds only what a map would: nothing that was removed, cleared or overwritten |
| LruCaches.UnfilledIsMap | Server/Include/Poco/AbstractCache.h:224-368 | over every run that uses at most size keys the cache is exactly that map |
| LruCaches.LruStrategy.constructor | Server/Include/Poco/LRUStrategy.h:47-51 | a new strategy holds no key |
| LruCaches.LruStrategy.OnAdd | Server/Include/Poco/LRUStrategy.h:57-65 | a new node for the key in front, found by the index |
| LruCaches.LruStrategy.OnRemove | Server/Include/Poco/LRUStrategy.h:67-76 | the key leaves list and index together; an absent key changes nothing |
| LruCaches.LruStrategy.OnUpdate | Server/Include/Poco/AbstractStrategy.h:41-46 | removal and addition: the key ends in front |
| LruCaches.LruStrategy.OnGet | Server/Include/Poco/LRUStrategy.h:78-88 | a hit moves the same node to the front; a miss changes nothing |
| LruCaches.LruStrategy.OnClear | Server/Include/Poco/LRUStrategy.h:90-94 | list and index are empty |
| LruCaches.LruStrategy.OnIsValid | Server/Include/Poco/LRUStrategy.h:96-102 | valid exactly when the index has the key |
| LruCaches.LruStrategy.OnReplace | Server/Include/Poco/LRUStrategy.h:104-128 | walking back from the tail selects exactly the keys beyond the first size of them |
| LruCaches.LruCache.Create | Server/Include/Poco/LRUStrategy.h:47-51 | a size below 1 is refused, any other gives an empty cache |
| LruCaches.LruCache.Add | Server/Include/Poco/AbstractCache.h:224-236 | value map, list and index stay in step and represent the recency list after the addition |
| LruCaches.LruCache.Update | Server/Include/Poco/AbstractCache.h:252-270 | the same for an update, of a key present or not |
| LruCaches.LruCache.Remove | Server/Include/Poco/AbstractCache.h:292-301 | the key is gone, the others are as they were and in order, and the structures stay in step |
| LruCaches.LruCache.DoReplace | Server/Include/Poco/AbstractCache.h:355-368 | the loop over the selected keys truncates the recency list to size |
| LruCaches.LruCache.Has | Server/Include/Poco/AbstractCache.h:303-318 | true exactly for the keys of the recency list |
| LruCaches.LruCache.Get | Server/Include/Poco/AbstractCache.h:320-346 | returns the value the recency list gives the key and moves it to the front; the branch that removes an invalid entry is never taken |
| LruCaches.LruCache.ClearAll | Server/Include/Poco/AbstractCache.h:348-353 | both structures are empty |
| LruCaches.LruCache.Size | Server/Include/Poco/AbstractCache.h:146-152 | the replacement it triggers changes nothing, and the result is the number of entries |
| ExpireStrategies.ReplacementIsExact | Server/Include/Poco/ExpireStrategy.h:109-120 | with a clock that does not run backwards, replacement selects every key expired at its first reading and none that is unexpired at its last |
| ExpireStrategies.ExpiredStaysExpired | Server/Include/Poco/AccessExpireStrategy.h:52-67 | once expired, a key is not revived by any access until it is added again |
| ExpireStrategies.AccessKeepsAlive | Server/Include/Poco/AccessExpireStrategy.h:52-67 | whatever happens to other keys, a key that is got again each time before the expiry time is over, and neither removed nor cleared, is held with the time of its last access, and is expired exactly from the expiry time after that on |
| ExpireStrategies.AccessDoesNotCount | Server/Include/Poco/ExpireStrategy.h:84-87 | without refresh a key counts from its last addition, however often it is got |
| ExpireStrategies.LinkedReplaced | Server/Include/Poco/ExpireStrategy.h:60-72 | replacing a key's node keeps keys and sorted index in bijection, in whichever order the node is inserted and the old one erased |
| ExpireStrategies.InsertErase | Server/Include/Poco/ExpireStrategy.h:60-72 | inserting before erasing and erasing before inserting give the same sorted index |
| ExpireStrategies.OrderedMeans | Server/Include/Poco/ExpireStrategy.h:109-120 | the index is sorted by time and has each key once |
| ExpireStrategies.InsertedBetween | Server/Include/Poco/ExpireStrategy.h:60-72 | as std::multimap inserts: behind every node that is not later and in front of every later one |
| ExpireStrategies.ExpireStrategy.Create | Server/Include/Poco/ExpireStrategy.h:49-54 | less than 25 ms is refused; the strategy made is of the kind asked for and keeps times in microseconds |
| ExpireStrategies.ExpireStrategy.OnAdd | Server/Include/Poco/ExpireStrategy.h:60-72 | the key's time becomes now, new key or not, and map and index stay in bijection |
| ExpireStrategies.ExpireStrategy.OnRemove | Server/Include/Poco/ExpireStrategy.h:74-82 | the key leaves both; an absent key changes nothing |
| ExpireStrategies.ExpireStrategy.OnGet | Server/Include/Poco/AccessExpireStrategy.h:52-67 | only an access strategy refreshes, and only an unexpired key |
| ExpireStrategies.ExpireStrategy.OnClear | Server/Include/Poco/ExpireStrategy.h:89-93 | both structures are empty |
| ExpireStrategies.ExpireStrategy.OnIsValid | Server/Include/Poco/ExpireStrategy.h:95-107 | valid exactly for a key held and not yet expired |
| ExpireStrategies.ExpireStrategy.OnReplace | Server/Include/Poco/ExpireStrategy.h:109-120 | the loop selects the expired front of the index, and so what ReplacementIsExact says |
| ExpireCaches.FoundAfterAdd | Server/Include/Poco/AbstractCache.h:224-236 | what is added is found for the expiry time and no longer, what is removed is not found, and other keys are as they were |
| ExpireCaches.FoundAfterGet | Server/Include/Poco/AccessExpireStrategy.h:52-67 | under access expiry a key got in time is found for another expiry time from then on; under plain expiry, or got late, nothing changes; other keys are as they were |
| ExpireCaches.ExpireCache.DoRemove | Server/Include/Poco/AbstractCache.h:292-301 | the key leaves value map and strategy together |
| ExpireCaches.ExpireCache.RemoveAll | Server/Include/Poco/AbstractCache.h:357-368 | the loop removes exactly the selected keys from both |
| ExpireCaches.ExpireCache.DoReplace | Server/Include/Poco/AbstractCache.h:355-368 | removes only entries that have expired for an ideal cache too, and all that had at the first reading |
| ExpireCaches.ExpireCache.Add | Server/Include/Poco/AbstractCache.h:224-236 | a cache that removes expired entries late still represents the ideal one that keeps everything, after storing the value with its time |
| ExpireCaches.ExpireCache.Update | Server/Include/Poco/AbstractCache.h:252-270 | the same for an update, of a key present, expired or absent |
| ExpireCaches.ExpireCache.Remove | Server/Include/Poco/AbstractCache.h:292-301 | the same for a removal |
| ExpireCaches.ExpireCache.Has | Server/Include/Poco/AbstractCache.h:303-318 | true exactly when the ideal cache has the key unexpired at that moment |
| ExpireCaches.ExpireCache.Get | Server/Include/Poco/AbstractCache.h:320-346 | returns exactly the value last given to the key, if it has not expired; refreshes what an access strategy refreshes; removes the entry otherwise |
| ExpireCaches.ExpireCache.ClearAll | Server/Include/Poco/AbstractCache.h:348-353 | everything is gone from both |
| ExpireCaches.ExpireCache.Size | Server/Include/Poco/AbstractCache.h:146-152 | counts every entry unexpired at the end of the replacement and none expired at its beginning |
| Receiving.FramesKeepBytes | Server/ServerCore/PacketSession.cpp:13-33 | delivered packets and unread rest together are exactly the bytes received |
| Receiving.LiteralPacket | Server/ServerCore/PacketSession.cpp:19-29 | in bytes: data whose first word, low byte first, is their own length are delivered as one packet, the empty packet of eight bytes included |
| Receiving.LiteralPart | Server/ServerCore/PacketSession.cpp:19-25 | in bytes: data whose first word announces more than is there deliver nothing |
| Receiving.LoopEnds | Server/ServerCore/PacketSession.cpp:17-30 | the loop ends exactly when it meets no header that announces zero, and then with the scan |
| Receiving.ZeroHeaderHangs | Server/ServerCore/PacketSession.cpp:17-30 | an instance: eight zero bytes keep it going for ever |
| Receiving.RestIsIncomplete | Server/ServerCore/PacketSession.cpp:19-25 | the loop stops only when no whole packet is left |
| Receiving.FramesAppend | Server/ServerCore/PacketSession.cpp:13-33 | scanning in two instalments delivers the same as scanning at once |
| Receiving.PrefixScans | Server/ServerCore/PacketSession.cpp:13-33 | any front part of a stream of packets yields the packets it has whole, and a proper part of the next |
| Receiving.ChunkingIndependence | Server/ServerCore/PacketSession.cpp:13-33 | however a stream of packets is cut, each is delivered once, in order, and what is left is the undelivered part |
| Receiving.FullMeansTooLong | Server/ServerCore/PacketSession.cpp:19-25 | for any bytes the loop accepts, what is held fills the buffer only if its header announces more than the capacity |
| Receiving.HeldIsShort | Server/ServerCore/NetworkBuffer.cpp:23-57 | if no packet exceeds the buffer, what is held between receives never fills it |
| Receiving.ForwardCopy | Server/ServerCore/NetworkBuffer.cpp:34 | a forward byte copy to a lower address moves the data intact although the ranges may overlap |
| Receiving.NetworkBuffer.constructor | Server/ServerCore/NetworkBuffer.cpp:5-9 | an empty window of the registered region, resized at half its capacity |
| Receiving.NetworkBuffer.DataSize | Server/ServerCore/NetworkBuffer.h:2-20 | the number of unread bytes |
| Receiving.NetworkBuffer.Clean | Server/ServerCore/NetworkBuffer.cpp:23-39 | unread data are unchanged; free space is afterwards at least half the capacity or all that is not data; nothing outside the window is touched |
| Receiving.NetworkBuffer.OnRead | Server/ServerCore/NetworkBuffer.cpp:41-48 | drops exactly the bytes read, or refuses more than there are |
| Receiving.NetworkBuffer.OnWrite | Server/ServerCore/NetworkBuffer.cpp:50-57 | appends exactly the bytes the network wrote, or refuses more than fit |
| Receiving.Session.OnRecv | Server/ServerCore/PacketSession.cpp:13-33 | the loop delivers the packets of the scan and returns where its rest begins |
| Receiving.Session.ProcessData | Server/ServerCore/PacketSession.cpp:13-33 | OnRecv on the unread bytes and OnRead of what it processed leave the rest of the scan unread; OnRead never refuses |
| Receiving.Session.ProcessRecv | Server/ServerCore/NetworkBuffer.cpp:23-57 | one completed receive: disconnects exactly on 0 bytes or overflow, otherwise delivers the scan of old data and new, keeps its rest, and leaves no room only if the rest is the front of a packet too long for the buffer |
| Receiving.Session.Receive | Server/ServerCore/NetworkBuffer.h:17-21 | a chunk no longer than the posted length arrives behind the data and is processed |
| Receiving.ReceiveStream | Server/ServerCore/NetworkBuffer.cpp:23-57 | a whole connection: never disconnects, never stalls, and delivers exactly what the chunks contain |
| Bytes.LowByteFirst | Server/ServerCore/PacketSession.cpp:23 | a header word read from memory counts its first byte once and each further one 256 times the one before |
| Bytes.WordBytes | Server/ServerCore/PacketHandler.h:45-46 | the bytes of a header word written to memory, low byte first |
| Varints.DecodeEncode | Server/Include/Protobuf/google/protobuf/io/coded_stream.h:922-945 | a varint written is read back with its value and length, whatever follows |
| Varints.EncodedDigits | Server/Include/Protobuf/google/protobuf/io/coded_stream.h:922-945 | a varint is the digits to base 128, low ones first, each but the last with 128 added, and no shorter form exists |
| Varints.VarintBytes | Server/Include/Protobuf/google/protobuf/io/coded_stream.h:922-945 | its bytes for values below 16384 |
| Varints.EncodedSizes | Server/Include/Protobuf/google/protobuf/parse_context.h:567-583 | 32-bit values take at most five bytes and 64-bit values at most ten, the readers' limits |
| Varints.VarintSizeIsLength | Server/Include/Protobuf/google/protobuf/io/coded_stream.h:1742-1781 | the multiplication formula is the encoded length of every 64-bit value |
| Varints.SignExtendRoundTrip | Server/Include/Protobuf/google/protobuf/parse_context.h:658-662 | an int32 written as 64 bits sign-extended is read back by truncation |
| Varints.SignExtendMeans | Server/ServerApp/Protocol.pb.cc:267-271 | a non-negative int32 is written as it is, a negative one with 2^64 added and so in ten bytes |
| Varints.AccumulateModulo | Server/Include/Protobuf/google/protobuf/parse_context.cc:320-361 | one turn of the accumulation that adds each byte less one keeps the partial value, modulo the word |
| Varints.ReadTag | Server/Include/Protobuf/google/protobuf/parse_context.h:567-583 | a tag of at most five bytes, read and truncated as the format says |
| Varints.ReadVarint32 | Server/Include/Protobuf/google/protobuf/parse_context.h:658-662 | a varint of at most ten bytes, truncated to 32 bits |
| Varints.ParseVarint | Server/Include/Protobuf/google/protobuf/parse_context.h:543-558 | the reading loop gives the mathematical value modulo the word, and fails exactly on input that ends early or exceeds the limit |
| WireFields.PayloadRoundTrip | Server/Include/Protobuf/google/protobuf/parse_context.h:811-855 | each type of field, groups included, is parsed back from its payload |
| WireFields.FieldsRoundTrip | Server/Include/Protobuf/google/protobuf/wire_format.cc:192-228 | any sequence of fields, groups nested up to the limit, is parsed back from its serialisation |
| WireFields.FieldBytes | Server/Include/Protobuf/google/protobuf/wire_format.cc:192-228 | the bytes of each type of field: wire types 0, 1, 2, 3 with 4, and 5 |
| WireFields.NestingLimit | Server/Include/Protobuf/google/protobuf/parse_context.h:857-873 | a parser accepts a hundred groups one inside the other and no more |
| WireFields.PrefixField | Server/Include/Protobuf/google/protobuf/parse_context.h:811-855 | what a field parses to does not depend on what follows it |
| WireFields.TokenizeConcat | Server/Include/Protobuf/google/protobuf/parse_context.h:857-873 | the fields of two bodies in a row are the fields of both |
| WireFields.OverwriteTwice | Server/Include/Protobuf/google/protobuf/wire_format.cc:192-228 | writing one piece behind another is writing both |
| WireFields.WriteVarint | Server/Include/Protobuf/google/protobuf/io/coded_stream.h:922-956 | the loop writes exactly the encoding at the target and nothing else |
| WireFields.WriteField | Server/Include/Protobuf/google/protobuf/wire_format.cc:192-228 | a field is written at the target and nothing else changes |
| WireFields.WriteFields | Server/Include/Protobuf/google/protobuf/wire_format.cc:192-228 | the same for a sequence of fields |
| WireFields.ComputeSize | Server/Include/Protobuf/google/protobuf/wire_format.cc:266-306 | the computed size is the length written |
| WireFields.FieldParser | Server/Include/Protobuf/google/protobuf/parse_context.h:811-855 | the branches by wire type give the field and the rest, or fail, as the format says |
| WireFields.ReadString | Server/Include/Protobuf/google/protobuf/parse_context.cc:363-381 | the length prefix is limited and the payload must be there |
| WireFields.GroupParser | Server/Include/Protobuf/google/protobuf/parse_context.h:857-873 | the loop gives the fields up to the end or a closing tag |
| Utf8.ValidIsEncoded | Server/ServerApp/Protocol.pb.cc:229-235 | the texts VerifyUTF8 accepts are exactly the encodings of sequences of Unicode scalar values, one to four bytes each |
| Utf8.EncodedIsChar | Server/ServerApp/Protocol.pb.cc:229-235 | each scalar value, whatever follows, is one well-formed character |
| Messages.RoundTrip | Server/ServerApp/Protocol.pb.cc:214-289 | parsing what a message serialises to gives the message back, for all int32 values and any unknown fields, exactly when its text is valid UTF-8 |
| Messages.TextArrives | Server/ServerApp/Protocol.pb.cc:214-289 | a chat message arrives exactly when its text encodes a sequence of Unicode scalar values |
| Messages.TextBytes | Server/ServerApp/Protocol.pb.cc:261-289 | in bytes: session id in field 2, text in field 3, then the unknown fields |
| Messages.NumberBytes | Server/ServerApp/Protocol.pb.cc:733-757 | in bytes: session id in field 2, number in field 3, then the unknown fields |
| Messages.DefaultBytes | Server/ServerApp/Protocol.pb.cc:261-289 | a default field is not written |
| Messages.RefusedText | Server/ServerApp/Protocol.pb.cc:273-281 | an instance of a text that is written and not read back |
| Messages.ConcatenationIsMerge | Server/ServerApp/Protocol.pb.cc:327-340 | parsing a message's bytes behind anything that parses is merging the message into it |
| Messages.TwoInARow | Server/ServerApp/Protocol.pb.cc:793-806 | the bytes of two messages in a row and the bytes of their merge parse to the same message |
| Messages.AcceptedInputNormalizes | Server/ServerApp/Protocol.pb.cc:688-757 | whatever bytes are accepted, writing the result and reading it again gives the same message |
| Messages.MergeValid | Server/ServerApp/Protocol.pb.cc:327-340 | merging keeps messages serialisable and readable |
| Messages.ChatMessage.Clear | Server/ServerApp/Protocol.pb.cc:203-212 | every field is default |
| Messages.ChatMessage.InternalParse | Server/ServerApp/Protocol.pb.cc:214-259 | the tag loop accepts exactly the bodies the format and UTF-8 allow, the last value of a field winning and unknown fields kept; as message_lite.cc lines 139-150 then check, a body that ends at a closing tag is refused |
| Messages.ChatMessage.InternalSerialize | Server/ServerApp/Protocol.pb.cc:261-289 | writes the non-default fields and the unknown ones at the target and nothing else |
| Messages.ChatMessage.ByteSizeLong | Server/ServerApp/Protocol.pb.cc:291-312 | the exact length InternalSerialize writes |
| Messages.ChatMessage.MergeFrom | Server/ServerApp/Protocol.pb.cc:327-340 | non-default fields win, unknown fields are appended |
| Messages.GetIdResponse.Clear | Server/ServerApp/Protocol.pb.cc:676-686 | every field is default |
| Messages.GetIdResponse.InternalParse | Server/ServerApp/Protocol.pb.cc:688-731 | as for the chat messages, with two int32 fields |
| Messages.GetIdResponse.InternalSerialize | Server/ServerApp/Protocol.pb.cc:733-757 | as for the chat messages |
| Messages.GetIdResponse.ByteSizeLong | Server/ServerApp/Protocol.pb.cc:759-778 | the exact length InternalSerialize writes |
| Messages.GetIdResponse.MergeFrom | Server/ServerApp/Protocol.pb.cc:793-806 | non-default fields win, unknown fields are appended |
| PacketMemory.PacketChunk.Reset | Server/ServerCore/PacketChunk.cpp:6-10 | an empty closed chunk |
| PacketMemory.PacketChunk.Open | Server/ServerCore/PacketChunk.cpp:12-32 | refuses a chunk already open or a size that does not fit; otherwise a packet at the used end, holding a reference |
| PacketMemory.PacketChunk.Close | Server/ServerCore/PacketChunk.cpp:35-44 | the used part grows by what was written; a closed chunk is unchanged |
| PacketMemory.Packet.Close | Server/ServerCore/Packet.cpp:15-25 | commits the written size to the chunk if that is open, or refuses more than was allocated |
| PacketMemory.PacketManager.TryDequeue | Server/ServerCore/PacketManager.cpp:32-35 | may fail and may return any pooled chunk, which nothing refers to, as one step of PacketSteps |
| PacketMemory.PacketManager.Pop | Server/ServerCore/PacketManager.cpp:27-41 | a pooled or new chunk that nothing refers to, and which of the two steps it took |
| PacketMemory.PacketManager.Renew | Server/ServerCore/PacketManager.cpp:9-22 | the thread's chunk becomes an empty one no packet lies in, and its old one is given back if that was the last reference: the steps of PacketSteps it takes, one by one |
| PacketMemory.PacketManager.Open | Server/ServerCore/PacketManager.cpp:5-26 | fails exactly when the thread's packet is still open or the size exceeds a chunk; otherwise every live packet stays where it is and none overlaps the new one; the call is a run of this thread's steps that ends in the opening |
| PacketMemory.PacketManager.ClosePacket | Server/ServerCore/Packet.cpp:15-25 | committing a packet moves and overlaps no other; it is one step of PacketSteps, or none when it is refused |
| PacketMemory.PacketManager.Release | Server/ServerCore/PacketManager.cpp:43-53 | a chunk reaches the pool exactly when its last reference goes; the call is the dropping step and then, in that case, the enqueuing step |
| PacketMemory.PacketManager.ThreadExit | Server/ServerCore/PacketManager.cpp:43-53 | a thread's end gives its chunk up, which reaches the pool exactly when that was its last reference, in the same two steps |
| PacketMemory.ReferencedIsCounted | Server/ServerCore/PacketManager.cpp:43-53 | a chunk is referred to in the step system exactly when the counted references of its shared_ptr are not zero |
| PacketMemory.AssignShown | Server/ServerCore/PacketManager.cpp:9 | assigning the thread's chunk in the class is the assigning step, and its old chunk is dying exactly when no holder and no packet is left |
| PacketMemory.OpenShown | Server/ServerCore/PacketChunk.cpp:12-32 | opening a packet in the class is the opening step |
| PacketMemory.CloseShown | Server/ServerCore/Packet.cpp:15-25 | closing a packet in the class is the closing step |
| PacketMemory.DropShown | Server/ServerCore/PacketManager.cpp:43-53 | dropping a packet in the class is the dropping step |
| PacketMemory.PacketManager.PacketsLaid | Server/ServerCore/PacketManager.cpp:5-26 | what every run of PacketSteps keeps holds of the manager after every call: packets lie in their chunks, closed ones in the used part and an open one at its end, and no two overlap |
| PacketMemory.PacketManager.NoSharedByte | Server/ServerCore/PacketChunk.cpp:12-32 | two live packets never share a byte |
| PacketSteps.StepKeeps | Server/ServerCore/PacketManager.cpp:5-53 | every atomic step of every thread, with dequeuing, giving up the old reference, putting back and resetting apart, keeps chunks in one place and packets apart |
| PacketSteps.PacketsApart | Server/ServerCore/PacketManager.cpp:5-26 | in every interleaving of any number of threads two packets that are held share no byte |
| PacketSteps.ResetFindsNoPacket | Server/ServerCore/PacketManager.cpp:9-23 | in every interleaving a chunk is reset only when no packet lies in it |
| PacketSteps.ChunksRecycled | Server/ServerCore/PacketManager.cpp:27-53 | in every interleaving every chunk is in the pool, referred to or on its way, and what is in the pool is unreferred to |
| Pipeline.PacketRoundTrip | Server/ServerCore/PacketHandler.h:15-23 | a framed message is one well-formed packet, from which the handler gets the same id and message |
| Pipeline.FrameBytes | Server/ServerCore/PacketHandler.h:43-48 | in bytes: total length and id, each low byte first, then the payload |
| Pipeline.EndToEnd | Server/ServerCore/PacketHandler.h:37-55 | any sequence of messages, framed, sent as one stream and cut anywhere, reaches the handlers exactly, once each and in order; every packet fits the receive buffer |
| Pipeline.OpenFrame | Server/ServerCore/PacketHandler.h:43-46 | the header is in the new packet and no live packet's bytes change |
| Pipeline.CloseFrame | Server/ServerCore/PacketHandler.h:47-52 | closing after the payload commits exactly the framed bytes |
| Pipeline.MakeChatPacket | Server/ServerCore/PacketHandler.h:37-55 | the committed bytes are the framed serialisation, and no other live packet's bytes change |
| Pipeline.MakeGetIdPacket | Server/ServerCore/PacketHandler.h:37-55 | the same for SCGetIDResponse |
| DbQueue.StepKeeps | Server/ServerCore/DBService.cpp:21-51 | every atomic step of every thread keeps the counter exact and each producer's items, handled then pending then queued then mid-push, in push order |
| DbQueue.ReturnMeansDrained | Server/ServerCore/DBService.cpp:37-50 | at either of Execute's returns everything counted so far has been handled |
| DbQueue.CounterIsExact | Server/ServerCore/DBService.cpp:26-49 | in every interleaving the counter is queued + mid-push + dequeued and not yet subtracted, and never negative |
| DbQueue.KeyRouted | Server/ServerCore/DBLoadBalancer.cpp:71-74 | all items of a work id go to one service and none to another |
| DbQueue.RoundsRobin | Server/ServerCore/DBLoadBalancer.cpp:71-74 | work id i, or i and whole turns of the services, is dealt to service i |
| DbQueue.PushReaches | Server/ServerCore/DBLoadBalancer.cpp:28-34 | pushing such an item raises the count of service i by one and touches no other service |
| DbQueue.KeyOrder | Server/ServerCore/DBLoadBalancer.cpp:28-34 | in every interleaving what one producer pushed with one work id is handled by one service, in push order |
| DbQueue.ReturnHandlesAll | Server/ServerCore/DBLoadBalancer.cpp:44-69 | whenever a service's thread leaves Execute, everything routed to it has been handled, each producer's in order and once |
| DbQueue.DBService.Push | Server/ServerCore/DBService.cpp:21-29 | uninterrupted, the two steps add the item to its producer's queue and to the counter |
| DbQueue.DBService.TryDequeueBulk | Server/ServerCore/DBService.cpp:40-41 | at most the bulk size, item by item from the fronts of the queues, with producers in between; with none, a queue tried often enough is empty unless the bulk is full |
| DbQueue.DBService.HandleAll | Server/ServerCore/DBService.cpp:43-48 | the jobs are handled in the order dequeued, whatever producers do meanwhile |
| DbQueue.DBService.OneTurn | Server/ServerCore/DBService.cpp:33-50 | once round the loop, interrupted by producers between any two atomic steps, is a run of the step system; with nobody pushing it returns or takes a full bulk off the counter |
| DbQueue.DBService.Execute | Server/ServerCore/DBService.cpp:31-51 | the loop is a run of the step system and returns only when drained; and once no producer is mid-push and none pushes again it does return, within one turn more than the counter has full bulks, if the turns take what they can |
| DbProgress.Progress | Server/ServerCore/DBService.cpp:21-51 | a service that has counted something not yet subtracted, or is in Execute, can always take a step that brings it nearer to having handled everything |
| DbProgress.ServiceGoesOn | Server/ServerCore/DBLoadBalancer.cpp:44-69 | every run of one service is a run of the system that leaves the others alone |
| DbProgress.AlwaysDrainable | Server/ServerCore/DBLoadBalancer.cpp:28-69 | from any interleaving the threads can go on, without another push, to where everything routed to each service has been handled, each producer's items in order |
| MemoryPools.ChainAcyclic | Server/Include/Poco/MemoryPool.h:294-324 | a list that memory leads to null has no block twice |
| MemoryPools.ChainUnique | Server/Include/Poco/MemoryPool.h:294-324 | the words in memory determine the free list |
| MemoryPools.BucketLinked | Server/Include/Poco/MemoryPool.h:211-230 | a new bucket, its last block terminated, is a list of exactly its blocks |
| MemoryPools.GrowKeeps | Server/Include/Poco/MemoryPool.h:348-365 | a resize on an empty free list keeps the partition, adds exactly a bucket of free blocks, and on bad_alloc changes nothing but the vector's capacity, and that exactly when it was about to be doubled |
| MemoryPools.GrowIsExact | Server/Include/Poco/MemoryPool.h:348-365 | a resize is refused exactly when a full vector would be doubled beyond maxAlloc; else the vector is doubled if it was full, and the new blocks are free, first to last |
| MemoryPools.StepKeeps | Server/Include/Poco/MemoryPool.h:294-324 | get and release keep free and outstanding blocks a partition of all blocks |
| MemoryPools.RunKeeps | Server/Include/Poco/MemoryPool.h:294-365 | over every run the free and the outstanding blocks together number buckets times blocks per bucket |
| MemoryPools.NewPool | Server/Include/Poco/MemoryPool.h:260-284 | a new pool is consistent |
| MemoryPools.NoBlockTwice | Server/Include/Poco/MemoryPool.h:294-324 | in every run a block is handed out again only after a release |
| MemoryPools.GetUndoesRelease | Server/Include/Poco/MemoryPool.h:294-324 | the block released last is the next handed out, which restores the pool |
| MemoryPools.FastMemoryPool.Create | Server/Include/Poco/MemoryPool.h:260-284 | refuses fewer than two blocks per bucket and a failed allocation, otherwise one bucket of free blocks |
| MemoryPools.FastMemoryPool.Resize | Server/Include/Poco/MemoryPool.h:348-365 | a new bucket becomes the free list; bad_alloc leaves blocks, list and counter as they were |
| MemoryPools.FastMemoryPool.Get | Server/Include/Poco/MemoryPool.h:294-309 | hands out the front of the list, which no user holds, or throws, with the pool intact exactly unless the vector was about to be doubled |
| MemoryPools.FastMemoryPool.Release | Server/Include/Poco/MemoryPool.h:311-324 | the block becomes the front of the list; null is ignored |
| MemoryPools.FastMemoryPool.UserWrite | Server/Include/Poco/MemoryPool.h:231-246 | what users write into blocks they hold does not disturb the pool |
| MemoryPools.FastMemoryPool.Allocated | Server/Include/Poco/MemoryPool.h:332-336 | the number of blocks, free and outstanding |
| PoolLimits.BucketLimit | Server/Include/Poco/MemoryPool.h:348-358 | with maxAlloc set no run has more buckets than the capacity at which doubling stops |
| PoolLimits.LimitReached | Server/Include/Poco/MemoryPool.h:348-358 | and a run of allocations that memory does not fail has that many |
| PoolLimits.ByteLimit | Server/Include/Poco/MemoryPool.h:260-284 | the documented promise, never more than maxAlloc bytes, holds exactly when that many buckets fit into so many bytes |
| PoolLimits.ByteLimitIsExceeded | Server/Include/Poco/MemoryPool.h:260-284 | so it holds for no pool the constructor accepts |
| PoolLimits.FirstBucketTooLarge | Server/Include/Poco/MemoryPool.h:260-284 | an instance: a limit of 100 and 1000 blocks per bucket |
| PoolLimits.RefusalLeavesIntact | Server/Include/Poco/MemoryPool.h:348-358 | as documented, a resize refused because it would exceed maxAlloc leaves the pool intact |
| PoolLimits.BadAllocLeavesIntact | Server/Include/Poco/MemoryPool.h:348-358 | beyond the documentation: for whatever reason an allocation throws, the pool is intact exactly unless its vector was full and could still be doubled |
| PoolLimits.BadAllocChangesPool | Server/Include/Poco/MemoryPool.h:348-358 | an instance where memory fails: a used-up pool of one bucket |
| FifoBuffers.FirstInFirstOut | Server/Include/Poco/FIFOBuffer.h:136-345 | over every run what has left the buffer followed by what is in it is what was there at first followed by what was added |
| FifoBuffers.StepMeans | Server/Include/Poco/FIFOBuffer.h:136-461 | what is in the buffer after each operation, and its flags |
| FifoBuffers.FillsUp | Server/Include/Poco/FIFOBuffer.h:311-355 | data exactly as long as the free space fill the buffer |
| FifoBuffers.FitsMeans | Server/Include/Poco/FIFOBuffer.h:320-343 | copy and advance accept exactly what is no longer than the free space, unless error or EOF is set; and nothing at all, always |
| FifoBuffers.TransitionsMean | Server/Include/Poco/FIFOBuffer.h:520-532 | each event is signalled exactly for the step it is for, and at most once |
| FifoBuffers.ReadableIsKnown | Server/Include/Poco/FIFOBuffer.h:409-451 | over every run with notifications an observer of the events knows whether the buffer is readable |
| FifoBuffers.WritableIsKnown | Server/Include/Poco/FIFOBuffer.h:409-451 | each operation leaves an observer right about writability exactly unless it reads or drains a full buffer at EOF, clears the error flag of a full buffer, or clears EOF of a buffer that is full or in error (size zero included) |
| FifoBuffers.WritableIsKnownOverRuns | Server/Include/Poco/FIFOBuffer.h:409-451 | over every run without such an operation an observer knows whether the buffer is writable |
| FifoBuffers.MisledAfterEof | Server/Include/Poco/FIFOBuffer.h:443-451 | an instance where an observer is told the buffer is writable and it is not |
| FifoBuffers.TransitionsAreKnown | Server/Include/Poco/FIFOBuffer.h:520-532 | with read, write, drain, copy and advance alone, observers know at any time whether the buffer is empty and, unless its size is zero, whether it is full |
| FifoBuffers.BasicFIFOBuffer.constructor | Server/Include/Poco/FIFOBuffer.h:78-87 | an empty queue of the given size |
| FifoBuffers.BasicFIFOBuffer.Filled | Server/Include/Poco/FIFOBuffer.h:100-109 | a full queue of the given data |
| FifoBuffers.BasicFIFOBuffer.Notify | Server/Include/Poco/FIFOBuffer.h:520-532 | signals exactly the transitions between empty and non-empty and between full and non-full |
| FifoBuffers.BasicFIFOBuffer.Begin | Server/Include/Poco/FIFOBuffer.h:357-370 | compaction never changes the content |
| FifoBuffers.BasicFIFOBuffer.Next | Server/Include/Poco/FIFOBuffer.h:372-377 | the place behind the content, after compaction |
| FifoBuffers.BasicFIFOBuffer.Peek | Server/Include/Poco/FIFOBuffer.h:136-153 | copies the front of the content and changes nothing |
| FifoBuffers.BasicFIFOBuffer.Read | Server/Include/Poco/FIFOBuffer.h:174-195 | removes exactly the front part it returns |
| FifoBuffers.BasicFIFOBuffer.ReadBuffer | Server/Include/Poco/FIFOBuffer.h:197-217 | the same, with length 0 for everything |
| FifoBuffers.BasicFIFOBuffer.MakeRoom | Server/Include/Poco/FIFOBuffer.h:236-240 | compacts exactly when the room behind the data is too short, without changing the content |
| FifoBuffers.BasicFIFOBuffer.Write | Server/Include/Poco/FIFOBuffer.h:219-251 | appends exactly min(length, free) elements wherever the data lie in the array |
| FifoBuffers.BasicFIFOBuffer.Drain | Server/Include/Poco/FIFOBuffer.h:288-309 | removes the first elements, or all |
| FifoBuffers.BasicFIFOBuffer.Copy | Server/Include/Poco/FIFOBuffer.h:311-330 | appends all or throws |
| FifoBuffers.BasicFIFOBuffer.Advance | Server/Include/Poco/FIFOBuffer.h:332-355 | appends the elements lying behind the content, or throws |
| FifoBuffers.BasicFIFOBuffer.FillInPlace | Server/Include/Poco/FIFOBuffer.h:332-377 | filling at next() and advancing appends what was filled in |
| FifoBuffers.BasicFIFOBuffer.SetError | Server/Include/Poco/FIFOBuffer.h:409-434 | empties the buffer and signals what observers must know |
| FifoBuffers.BasicFIFOBuffer.SetEOF | Server/Include/Poco/FIFOBuffer.h:443-461 | sets the flag and signals |
| FifoBuffers.BasicFIFOBuffer.At | Server/Include/Poco/FIFOBuffer.h:379-401 | the element of the content, or an exception beyond it |
| Hmacs.PaddedKey | Server/Include/Poco/HMACEngine.h:94-118 | zeros behind a key shorter than a block do not matter, as in section 2 of RFC 2104 |
| Hmacs.LongKey | Server/Include/Poco/HMACEngine.h:94-112 | a key longer than a block gives the code of its hash, cut to a block |
| Hmacs.PadOctets | Server/Include/Poco/HMACEngine.h:96-123 | octet by octet: the inner block is the key xor 0x36 and the outer one the key xor 0x5c, zeros behind the key |
| Hmacs.HMACEngine.constructor | Server/Include/Poco/HMACEngine.h:94-125 | for any key length the pads are those of section 2 of RFC 2104 and the engine is ready |
| Hmacs.HMACEngine.XorPads | Server/Include/Poco/HMACEngine.h:119-123 | the loop xors every octet of both pads |
| Hmacs.HMACEngine.Spread | Server/Include/Poco/HMACEngine.h:96-118 | the loop copies what fits of the key into both pads, zeros behind it |
| Hmacs.HMACEngine.Update | Server/Include/Poco/HMACEngine.h:127-130 | data are added to the message |
| Hmacs.HMACEngine.Reset | Server/Include/Poco/HMACEngine.h:72-76 | the message is empty |
| Hmacs.HMACEngine.Digest | Server/Include/Poco/HMACEngine.h:78-91 | H((K xor opad), H((K xor ipad), text)), and the engine is ready for the next message |
| Hmacs.HMACEngine.Authenticate | Server/Include/Poco/HMACEngine.h:78-130 | any split of the text into updates gives the code of the whole text |
| ListMaps.RunKeeps | Server/Include/Poco/ListMap.h:150-226 | over every run from an empty map entries with equal keys are contiguous and in the order of insertion, for any equivalence on keys |
| ListMaps.InsertIsExact | Server/Include/Poco/ListMap.h:150-160 | the new entry goes behind those with its key; they and the rest keep their order |
| ListMaps.EraseKeyIsExact | Server/Include/Poco/ListMap.h:167-187 | erase(key), which stops at the first entry behind a match, removes all matches and keeps the rest in order |
| ListMaps.FindsOldest | Server/Include/Poco/ListMap.h:135-148 | find gives the entry with the key inserted first |
| ListMaps.EraseAtIsExact | Server/Include/Poco/ListMap.h:162-165 | erasing at a position leaves every other entry, in order |
| ListMaps.AssignIsExact | Server/Include/Poco/ListMap.h:218-226 | after an assignment the key has the value; every other entry is unchanged |
| ListMaps.ListMap.Find | Server/Include/Poco/ListMap.h:135-148 | the first match, or end() |
| ListMaps.ListMap.Insert | Server/Include/Poco/ListMap.h:150-160 | the new container and where the entry is; the invariant is kept |
| ListMaps.ListMap.EraseAt | Server/Include/Poco/ListMap.h:162-165 | exactly one entry goes; the invariant is kept |
| ListMaps.ListMap.EraseKey | Server/Include/Poco/ListMap.h:167-187 | the entries left are exactly those with other keys, in order, and the result is the number removed |
| ListMaps.ListMap.Clear | Server/Include/Poco/ListMap.h:189-192 | no entries are left |
| ListMaps.ListMap.At | Server/Include/Poco/ListMap.h:204-211 | the value of the first match, or an exception exactly when there is none |
| ListMaps.ListMap.Index | Server/Include/Poco/ListMap.h:213-226 | refers to the first match, or to an entry made for the key |
| ListMaps.ListMap.Assign | Server/Include/Poco/ListMap.h:213-226 | assigning through the reference changes one value or inserts; the invariant is kept |

## Left out

- Integer widths: `size_t`, `int32_t` counters and positions are unbounded here, except on the wire, where 32- and 64-bit truncation, sign extension and the 2 GB payload limit are modelled.
- Memory order and the inside of the concurrent queue: each atomic operation and each queue operation is one step, and the queue is one FIFO per producer, as its documentation promises.
- `shared_ptr` and its control block: a chunk's references are counted in a field, and the deleter runs when it reaches zero. Object pools behind packets and DB jobs are allocation.
- DbQueue.DBService.Execute: a loop without bound in the source; here it runs for any finite number of turns of the other threads, and its return is proved when they are quiet and each bulk takes what it can; a bulk that comes back short of what is queued, as the concurrent queue allows, may need more turns. A null request, which `Push` refuses, is not modelled, nor are reconnecting and sleeping in `DBLoadBalancer::Launch`.
- Negative work ids, for which `GetDBService` computes a negative index, and a load balancer whose `Init` failed.
- Receiving.Session.OnRecv: a header that announces zero bytes, on which the loop never ends (`LoopEnds`), is excluded by its precondition, and so by those of Receiving.Session.ProcessRecv and Receiving.Session.Receive. A header that announces one to seven bytes is delivered as the code delivers it; what a handler does with a packet shorter than its header is not modelled. Negative byte counts are excluded.
- Receiving.Session.Receive: the network writes at most the length that was posted. Sockets, RIO registration and disconnecting are not part of this model.
- Messages: a repeated parse into an object that already failed to parse, arenas, reflection, `CopyFrom` and `Swap`; the input is one buffer, not a chain of streams. The payload limit is that of `ReadSize`.
- CSGetIDRequest, the message without fields: its parse keeps every field as unknown.
- Pipeline.MakeChatPacket: a packet over 12000 bytes, or a thread whose last packet is still open, for which `Open` returns null and the source goes on to use it, is excluded by the precondition; the same for Pipeline.MakeGetIdPacket.
- `SerializeToArray` failing between opening and closing a packet.
- PacketMemory.PacketManager.ClosePacket: closes an open packet. A packet closed a second time can take in bytes of the next one, or close the chunk under an open one; `Packet.Close` says what it does, and the invariant is not claimed after it.
- PacketMemory.PacketManager.Open: one indivisible operation of its thread, as Release and ThreadExit are; the class proves each call to be a run of the steps of PacketSteps, and the interleavings of those steps by several threads are the subject of PacketSteps, where a reference count that reaches zero is the absence of references.
- FifoBuffers.BasicFIFOBuffer.FillInPlace: the caller fills no more than is free. `resize`, which does not move the data to the front, is outside the queue refinement, and so are the mutex and the observers themselves.
- Hmacs.HMACEngine.Digest: returns a value, where the source returns a reference into the engine; the assertion on the digest's size is a property of the engine, as is a digest no longer than a block.
- `ListMap` built by the reserving constructor, which starts with default entries, and keys changed through an iterator.
- LinearHashTables: iterators are valid only while the table is not modified, as in the source; hashing is an arbitrary function, and copying and swapping tables are not modelled.
- LruCaches: only the strategy subscribes to the cache's events. The overloads taking a shared pointer, `forEach`, `forceReplace` and `getAllKeys` add nothing to the replacement they start with. The same holds for ExpireCaches, where the readings of the clock must not run backwards.
- MemoryPools.Grow: `vector::reserve` is taken to reserve exactly what is asked for.
- FastMemoryPool's destructor, and releasing a block that is not held: users owe the pool the latter.
- ObjectPool, chat rooms, session sets, services, logging, configuration and the ODBC sessions: their logic is a lookup or a library call.
