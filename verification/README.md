# DIstData core, modelled in Dafny

DIstData is a small distributed key-value store written in C++. This project
models four of its parts and proves what each one promises:

- **Messages and their binary codec** (`src/message.h`,
  `src/message_serializer.cpp`, `src/message_deserializer.cpp`).
  - `serialize` writes a one-byte type tag, then a payload chosen by the
    type: big-endian 32-bit words and length-prefixed strings.
  - `deserialize` reads a frame back and throws "Empty buffer" or "Buffer
    underflow".
  - Files: `message.dfy`, `serializer.dfy`, `deserializer.dfy`, and the
    round-trip properties in `codec_properties.dfy`.
- **The coordinator's in-memory store** (`src/CoordinatorNode.cpp`), in
  `store.dfy`.
  - `InMemoryNode` keeps an append-only list of `KeyValue` records.
  - `DistributedDB` places a key on node `hash(key) % totalNodes` and
    replicates it to the `rf - 1` nodes that follow, modulo the node count.
  - `shardData` picks a shard by the same rule.
- **The SQL-subset query parser** (`src/QueryParser.cpp`), in
  `query_parser.dfy`, with the properties of whole queries in
  `query_properties.dfy`.
- **The `Node` of the failure-recovery test** (`src/FailureRecoveryTest.cpp`),
  in `failure_node.dfy`. It is a map that stops taking writes once the node
  has crashed, plus a set of blocked peers.

`wrappers.dfy` holds the `Option` and `Result` types the other files share.

**Imperative code becomes methods with loops.** Code that the source writes
imperatively is modelled as Dafny methods with loops or object state:

- the `write*` and `read*` helpers;
- the node loop of `serialize` and `deserialize`;
- `InMemoryNode` and `DistributedDB`;
- `parse`'s cursor loop and `splitColumns`;
- the failure-test `Node`.

Each such method is proved equal to a pure specification function:
`Frame`, `Decode`, `Parse*`, `Written`, `Lookup`, `WithoutKey`, `ScanStep`,
`ParseQuery`, `TrimAll(Pieces(...))` or `Apply`. The lemmas then state what
the source promises about those functions.

**Behaviour worth knowing.** The model follows the code, and the code
behaves as follows:

- **Reads return the oldest record, not the newest.** `InMemoryNode::read`
  returns the oldest record with the key, so reads are not
  last-writer-wins. A second `put` of a key is never seen by `get`
  (`Store.LookupAfterWrites`, `Store.DistributedDB.ReadAfterPut`).
- **Versions can repeat.** A version is the node's record count plus one,
  so after a `remove` two live records can carry the same version
  (`Store.VersionsRepeatAfterRemove`).
- **Replicas can land on the same node.** When `rf` exceeds the node count,
  the ring wraps and a node receives two records of the pair, with
  different versions
  (`Store.PrimaryDuplicatedWhenReplicasWrap`).
- **The demo query is rejected.** The parser's own demonstration query
  `SELECT id, name FROM users WHERE age = 25;` throws "Unexpected input".
  After the type word the cursor is at `id`, which is not a keyword
  (`QueryProperties.DemoRejected`).
- **A table after a column list is rejected unless it starts with a
  keyword.** After `SELECT columns FROM` the cursor lands just past FROM,
  so the table name is the next token. `X SELECT a FROM users` is rejected
  at `users` (`QueryProperties.TableAfterSelectRejected`,
  `QueryProperties.ColumnsThenTable`). A second FROM sets the table:
  `X SELECT a FROM FROM users` has the columns `[a]` and the table `users`
  (`QueryProperties.FromFromAfterSelect`,
  `QueryProperties.ColumnsThenFromTable`).
- **WHERE reads up to the first `;`.** The conditions end at the first
  `;` or at the end of the query, and whatever follows the `;` is dropped
  (`QueryProperties.WhereAny`, `QueryProperties.ConditionsEndAtEnd`,
  `QueryProperties.ConditionsEndAtSemicolon`).
- **The table can keep a semicolon.** A `;` that ends a query without a
  `WHERE` stays part of the table name (`QueryProperties.SemicolonInTable`).

## Model

| member | source | states |
|---|---|---|
| Message.DefaultMessage | src/message_deserializer.cpp:40 | the default-constructed message that `deserialize` fills: the given type, empty strings and no nodes |
| Serializer.ToUint32 | src/message_serializer.cpp:9-12 | the bit pattern of a signed `int` agrees with it modulo 2^32 |
| Serializer.ToInt32 | src/message_deserializer.cpp:14-21 | the signed value of 32 bits agrees with them modulo 2^32 |
| Serializer.Uint32RoundTrip | src/message_serializer.cpp:9-12 | reading a bit pattern as `int` and back gives the same pattern |
| Serializer.Int32RoundTrip | src/message_deserializer.cpp:14-21 | an `int` taken to its bit pattern and back is unchanged |
| Serializer.EncodeUint32 | src/message_serializer.cpp:4-7 | `writeUint32` writes exactly four bytes |
| Serializer.EncodeUint32Denotes | src/message_serializer.cpp:4-7 | the four bytes written denote the value, most significant byte first |
| Serializer.EncodeOfWord | src/message_serializer.cpp:4-7 | any four bytes are the encoding of the word they denote |
| Serializer.ShiftedByteOfNegative | src/message_serializer.cpp:9-12 | the arithmetic shifts of a negative `int` give the bytes of its two's-complement pattern |
| Serializer.EncodeString | src/message_serializer.cpp:14-17 | a string is written as 4 length bytes plus its bytes |
| Serializer.EncodeNodeInfo | src/message_serializer.cpp:19-23 | a node is written as uuid, ip and port, 12 bytes plus the two strings |
| Serializer.EncodeNodes | src/message_serializer.cpp:36-39 | the node loop writes nothing exactly when the list is empty |
| Serializer.EncodeNodesAppend | src/message_serializer.cpp:37-39 | the node loop writes one more node after the earlier ones, in list order |
| Serializer.Frame | src/message_serializer.cpp:25-51 | every frame is non-empty and starts with the type tag |
| Serializer.FrameLayout | src/message_serializer.cpp:28-49 | types without a payload give the bare tag; registration and key/value frames have 13 and 9 bytes plus their strings; a node-list frame holds the node count in the word after the tag |
| Serializer.FrameOfRelevant | src/message_serializer.cpp:28-49 | the frame depends only on the fields that belong to the type |
| Serializer.WriteUint32 | src/message_serializer.cpp:4-7 | the loop appends the four big-endian bytes of the value and keeps the buffer before them |
| Serializer.WriteInt | src/message_serializer.cpp:9-12 | the loop appends the four bytes of the value's two's-complement pattern |
| Serializer.WriteString | src/message_serializer.cpp:14-17 | appends the length cast to `uint32_t`, then the bytes |
| Serializer.WriteNodeInfo | src/message_serializer.cpp:19-23 | appends uuid, ip and port |
| Serializer.WriteNodes | src/message_serializer.cpp:37-39 | the loop appends every node in list order |
| Serializer.Serialize | src/message_serializer.cpp:25-51 | the buffer is exactly the frame of the message |
| Deserializer.Accumulated | src/message_deserializer.cpp:8-10 | shifting `k` bytes into the accumulator stays below 256^k, so `value << 8` never wraps for four bytes |
| Deserializer.AccumulatedIsWord | src/message_deserializer.cpp:7-10 | shifting four bytes into an accumulator gives the big-endian word they denote |
| Deserializer.ShiftInWrapped | src/message_deserializer.cpp:16-19 | wrapping the signed accumulator at every step gives the same result as wrapping once |
| Deserializer.ParseUint32 | src/message_deserializer.cpp:5-12 | succeeds exactly when 4 bytes remain, otherwise "Buffer underflow"; consumes 4 bytes |
| Deserializer.ParseUint32Sound | src/message_deserializer.cpp:5-12 | what was consumed is the encoding of the word read |
| Deserializer.ParseInt32 | src/message_deserializer.cpp:14-21 | succeeds exactly when 4 bytes remain, otherwise "Buffer underflow"; consumes 4 bytes |
| Deserializer.ParseInt32Sound | src/message_deserializer.cpp:14-21 | what was consumed is what `writeInt` writes for the `int` read |
| Deserializer.ParseString | src/message_deserializer.cpp:23-29 | fails only with "Buffer underflow"; on success consumes 4 length bytes and the string |
| Deserializer.ParseStringOk | src/message_deserializer.cpp:24-25 | succeeds exactly when the length and that many bytes are present |
| Deserializer.ParseStringSound | src/message_deserializer.cpp:23-29 | what was consumed is the encoding of the string read, whose length fits 32 bits |
| Deserializer.ParseNodeInfo | src/message_deserializer.cpp:31-37 | fails only with "Buffer underflow"; consumes 12 bytes plus the two strings |
| Deserializer.ParseNodeInfoSound | src/message_deserializer.cpp:31-37 | what was consumed is the encoding of the node read |
| Deserializer.ParseNodes | src/message_deserializer.cpp:52-55 | on success yields exactly `count` nodes; fails only with "Buffer underflow" |
| Deserializer.ParseNodesSound | src/message_deserializer.cpp:52-55 | what was consumed is the encoding of the nodes read, in order |
| Deserializer.Decode | src/message_deserializer.cpp:39-68 | "Empty buffer" exactly on an empty buffer; the message type is the first byte |
| Deserializer.DecodeSound | src/message_deserializer.cpp:39-68 | a decoded message holds only its type's payload, is well sized, and its frame is a prefix of the buffer |
| Deserializer.DecodeSoundRegistration | src/message_deserializer.cpp:45-47 | the registration case of `DecodeSound` |
| Deserializer.DecodeSoundNodeList | src/message_deserializer.cpp:51-56 | the node-list case of `DecodeSound` |
| Deserializer.DecodeSoundKeyValue | src/message_deserializer.cpp:58-62 | the key/value case of `DecodeSound` |
| Deserializer.ReadUint32 | src/message_deserializer.cpp:5-12 | the cursor loop agrees with `ParseUint32` on the bytes from the cursor, and the cursor moves by what was consumed |
| Deserializer.ReadInt | src/message_deserializer.cpp:14-21 | the cursor loop agrees with `ParseInt32`, including the signed wrap of `value << 8` |
| Deserializer.ReadString | src/message_deserializer.cpp:23-29 | agrees with `ParseString` and advances the cursor past the string |
| Deserializer.ReadNodeInfo | src/message_deserializer.cpp:31-37 | agrees with `ParseNodeInfo` |
| Deserializer.ReadNodes | src/message_deserializer.cpp:52-55 | the counted push-back loop agrees with `ParseNodes` |
| Deserializer.Deserialize | src/message_deserializer.cpp:39-68 | the result is exactly `Decode(buffer)` |
| CodecProperties.ReadsUint32 | src/message_deserializer.cpp:5-12 | `readUint32` reads back what `writeUint32` wrote and leaves what follows |
| CodecProperties.ReadsInt32 | src/message_deserializer.cpp:14-21 | `readInt` reads back what `writeInt` wrote, negative values included |
| CodecProperties.ReadsString | src/message_deserializer.cpp:23-29 | `readString` reads back what `writeString` wrote, for strings shorter than 2^32 |
| CodecProperties.ReadsNodeInfo | src/message_deserializer.cpp:31-37 | `readNodeInfo` reads back what `writeNodeInfo` wrote |
| CodecProperties.ReadsNodes | src/message_deserializer.cpp:51-56 | the node loop reads back every node written, in order |
| CodecProperties.RoundTrip | src/message_deserializer.cpp:39-68 | decoding a frame followed by any bytes yields the message's type and payload |
| CodecProperties.RoundTripRegistration | src/message_deserializer.cpp:45-47 | round trip for NODE_REGISTRATION |
| CodecProperties.RoundTripNodeList | src/message_deserializer.cpp:51-56 | round trip for NODE_LIST_RESPONSE |
| CodecProperties.RoundTripKeyValue | src/message_deserializer.cpp:58-62 | round trip for DATA_REQUEST and DATA_RESPONSE |
| CodecProperties.TagOnlyFrames | src/message_deserializer.cpp:48-50 | NODE_LIST_REQUEST, UNKNOWN and unnamed tags decode from the tag alone |
| CodecProperties.DecodedPrefixIsWholeFrame | src/message_deserializer.cpp:39-68 | a prefix of a frame that decodes is the whole frame |
| CodecProperties.FrameIsDecoded | src/message_deserializer.cpp:39-68 | a message whose frame lies within a prefix of another frame has the same frame |
| CodecProperties.TruncatedFrameFails | src/message_deserializer.cpp:6 | every non-empty proper prefix of a frame fails with "Buffer underflow" |
| CodecProperties.FrameInjective | src/message_serializer.cpp:25-51 | two well-sized messages with the same frame agree on type and payload |
| Store.Absent | src/CoordinatorNode.cpp:43 | the value-initialised `KeyValue()` that `read` returns: empty key, value and timestamp, version 0 |
| Store.Written | src/CoordinatorNode.cpp:29-35 | a write adds exactly one record |
| Store.WrittenTimesAdd | src/CoordinatorNode.cpp:29-35 | `a` writes then `b` writes of a pair are `a + b` writes |
| Store.FirstIndex | src/CoordinatorNode.cpp:38-42 | the first record with the key, every earlier record having another key |
| Store.Lookup | src/CoordinatorNode.cpp:37-44 | the empty `KeyValue()` when the key is absent, else the oldest record with the key |
| Store.WithoutKey | src/CoordinatorNode.cpp:46-50 | keeps exactly the records with another key |
| Store.InMemoryNode.constructor | src/CoordinatorNode.cpp:27 | a node starts with no records |
| Store.InMemoryNode.Write | src/CoordinatorNode.cpp:29-35 | appends one record whose version is the new record count |
| Store.InMemoryNode.Read | src/CoordinatorNode.cpp:37-44 | the scan returns `Lookup` of the storage |
| Store.InMemoryNode.Remove | src/CoordinatorNode.cpp:46-50 | the erase-remove idiom leaves `WithoutKey` of the storage, in order |
| Store.LookupAfterWrite | src/CoordinatorNode.cpp:29-44 | after a write, a key already held reads as before; a new key reads as the new record |
| Store.HasKeyAfterWrite | src/CoordinatorNode.cpp:29-35 | a key is held after a write exactly when it was held before or was written |
| Store.HasKeyAfterWrites | src/CoordinatorNode.cpp:29-35 | the same for repeated writes |
| Store.LookupAfterWrites | src/CoordinatorNode.cpp:29-44 | after any number of writes, an old key keeps its oldest record; a new key reads as its first write |
| Store.WithoutKeyAppend | src/CoordinatorNode.cpp:46-50 | `remove` works record by record over the parts of the storage |
| Store.WithoutAbsentKey | src/CoordinatorNode.cpp:46-50 | removing a key the node does not hold changes nothing |
| Store.LookupAfterRemove | src/CoordinatorNode.cpp:37-50 | after `remove(k)`, `k` reads as absent and every other key reads as before |
| Store.VersionsRepeatAfterRemove | src/CoordinatorNode.cpp:33 | write a, write b, remove a, write c leaves two records at version 2 |
| Store.Slot | src/CoordinatorNode.cpp:84-86 | `hash % n` lies in `[0, n)` |
| Store.Offset | src/CoordinatorNode.cpp:88-93 | the distance from one node to another on the ring lies in `[0, n)` |
| Store.Hits | src/CoordinatorNode.cpp:88-93 | the replica offsets in `[lo, hi)` hit a node no more times than there are offsets |
| Store.Copies | src/CoordinatorNode.cpp:72-76 | `put` writes to a node at least once if it is the primary, and at most `max(rf, 1)` times |
| Store.ReplicaStep | src/CoordinatorNode.cpp:89-92 | one turn of the replication loop, seen from one node |
| Store.OffsetMatch | src/CoordinatorNode.cpp:90 | replica `k` lands on `j` exactly when `j` lies `k` nodes after the primary |
| Store.HitsOnRing | src/CoordinatorNode.cpp:89-92 | with at most `n` offsets, each node is hit at most once, and only when it lies in range |
| Store.CopiesWhenReplicasFit | src/CoordinatorNode.cpp:72-76 | with `1 <= rf <= n`, `put` writes one record to each of the primary and the `rf - 1` nodes after it, and none elsewhere |
| Store.HitsGrow | src/CoordinatorNode.cpp:89-92 | more offsets never hit a node fewer times |
| Store.PrimaryDuplicatedWhenReplicasWrap | src/CoordinatorNode.cpp:88-93 | with `rf > n` the primary receives the record at least twice |
| Store.DistributedDB.constructor | src/CoordinatorNode.cpp:60-64 | `nodesCount` fresh, distinct, empty nodes, none when the count is not positive; keeps `rf` and the hash |
| Store.DistributedDB.GetNode | src/CoordinatorNode.cpp:84-86 | the primary of a key is a valid node index |
| Store.DistributedDB.Replicate | src/CoordinatorNode.cpp:88-93 | each node gains one record of the pair per replica offset that lands on it, and nothing else |
| Store.DistributedDB.Put | src/CoordinatorNode.cpp:72-76 | each node gains exactly `Copies` records of the pair, the primary included |
| Store.DistributedDB.ReadAfterPut | src/CoordinatorNode.cpp:72-81 | `get` after `put` returns the record held before if the primary already had the key, otherwise the record just put |
| Store.DistributedDB.Get | src/CoordinatorNode.cpp:78-81 | reads the primary node only |
| Store.ShardData | src/CoordinatorNode.cpp:140-143 | the id returned is the id of one of the shards |
| QueryParser.FindChar | src/QueryParser.cpp:43 | the first position of the character from `from` on, or none |
| QueryParser.Find | src/QueryParser.cpp:57 | the first occurrence of the pattern from `from` on, or none |
| QueryParser.FirstNonBlank | src/QueryParser.cpp:123 | the first character that is not a space or a tab |
| QueryParser.EndNonBlank | src/QueryParser.cpp:124 | one past the last character that is not a space or a tab |
| QueryParser.Trim | src/QueryParser.cpp:122-127 | the result has no blank at either end, is empty exactly when the input is all blanks, and keeps only the input's characters |
| QueryParser.TrimUnique | src/QueryParser.cpp:122-127 | `trim` of blanks, a trimmed core and blanks is exactly the core |
| QueryParser.TrimIdempotent | src/QueryParser.cpp:122-127 | trimming twice is trimming once |
| QueryParser.Getline | src/QueryParser.cpp:90 | one `getline` consumes at least one character |
| QueryParser.Pieces | src/QueryParser.cpp:86-94 | the `getline` loop yields no piece exactly for empty text, and never more pieces than characters |
| QueryParser.PiecesJoin | src/QueryParser.cpp:88-92 | splitting at ',' loses nothing: the pieces joined with ',' are the input, except for a final ',' |
| QueryParser.JoinPieces | src/QueryParser.cpp:88-92 | splitting pieces joined with ',' gives them back |
| QueryParser.PiecesHaveNoComma | src/QueryParser.cpp:90 | no piece holds a ',' |
| QueryParser.TrailingCommaIgnored | src/QueryParser.cpp:90 | a trailing ',' adds no empty final piece |
| QueryParser.TrimAll | src/QueryParser.cpp:91 | one trimmed column per piece |
| QueryParser.SplitColumns | src/QueryParser.cpp:86-94 | the loop yields every `getline` piece, trimmed, in order |
| QueryParser.ParseCondition | src/QueryParser.cpp:111-121 | the error quotes the condition; on success the operator is "=" and both sides are trimmed |
| QueryParser.ParseConditionNeedsEquals | src/QueryParser.cpp:112-120 | fails exactly when there is no '=', and the column holds no '=' |
| QueryParser.ParseConditions | src/QueryParser.cpp:95-110 | one or two conditions, every operator "="; errors come only from `parseCondition` |
| QueryParser.BeforeSemicolon | src/QueryParser.cpp:71-75 | the conditions text is a prefix without ';' that stops at the first ';' or runs to the end |
| QueryParser.SkipSpaces | src/QueryParser.cpp:37 | the first position from the cursor that is not white space |
| QueryParser.AfterFrom | src/QueryParser.cpp:40-52 | FROM sets only the table, to the text from the end of the spaces after FROM up to the new cursor; the table holds no space and the cursor is at a space or the end, so it stops at the first space |
| QueryParser.AfterSelect | src/QueryParser.cpp:54-66 | the parse ends with the query so far exactly when no FROM follows the columns; otherwise only the columns change, to the trimmed pieces of the text up to the first later FROM, and the cursor lands just past that FROM |
| QueryParser.AfterWhere | src/QueryParser.cpp:68-79 | WHERE sets only the conditions, to what `parseConditions` reads from the text after the spaces up to the first ';' (one or two of them), and ends the scan; or it fails with that error, "Unsupported operator" |
| QueryParser.ScanStep | src/QueryParser.cpp:36-81 | a turn moves the cursor forward and keeps the type; it stops with the query so far, or rejects the text from a position to the end; at a non-space position that starts no keyword it rejects exactly the rest of the query |
| QueryParser.Scan | src/QueryParser.cpp:35-82 | the scan keeps the query type |
| QueryParser.ParseQuery | src/QueryParser.cpp:23-84 | the type is the first word of the trimmed query, or empty when it has no space |
| QueryParser.OnlyUnexpectedTokensRejected | src/QueryParser.cpp:81 | "Unexpected input" quotes text from a position that is not white space and starts no keyword |
| QueryParser.SkipWhitespace | src/QueryParser.cpp:37 | the skipping loop stops at `SkipSpaces` |
| QueryParser.TakeTable | src/QueryParser.cpp:40-52 | the FROM branch of the loop body computes `AfterFrom` |
| QueryParser.TakeColumns | src/QueryParser.cpp:54-66 | the SELECT branch computes `AfterSelect` |
| QueryParser.TakeConditions | src/QueryParser.cpp:68-79 | the WHERE branch computes `AfterWhere` |
| QueryParser.Turn | src/QueryParser.cpp:36-81 | one turn of the loop body computes `ScanStep` |
| QueryParser.Parse | src/QueryParser.cpp:23-84 | the loop computes exactly `ParseQuery(query)` |
| QueryProperties.ParseConditionOf | src/QueryParser.cpp:111-121 | `column = value` with any blanks around '=' reads back as that condition |
| QueryProperties.ReadsRendered | src/QueryParser.cpp:111-121 | a well-formed condition written as `column=value` reads back |
| QueryProperties.ReadOneCondition | src/QueryParser.cpp:95-110 | one rendered condition reads back as a one-element list |
| QueryProperties.ReadTwoConditions | src/QueryParser.cpp:95-110 | two conditions joined by " AND " read back in order |
| QueryProperties.ColumnsReadBack | src/QueryParser.cpp:86-94 | trimmed columns without ',' joined with ',' split back into the same list |
| QueryProperties.TypeThen | src/QueryParser.cpp:27-33 | a word, a space and more text: the type is the word and the scan starts after the space |
| QueryProperties.FromAt | src/QueryParser.cpp:40-52 | FROM before a word and a space takes the word as the table and stops at the space |
| QueryProperties.FromAtEnd | src/QueryParser.cpp:44-46 | FROM before a last word takes the rest of the query as the table |
| QueryProperties.FromStep | src/QueryParser.cpp:40-52 | a loop turn at FROM takes the word after it as the table |
| QueryProperties.FromAny | src/QueryParser.cpp:40-52 | on any text, the table is what follows the spaces after FROM up to the first space or the end, and the scan resumes there |
| QueryProperties.SelectAt | src/QueryParser.cpp:54-66 | SELECT before columns and " FROM" takes the columns before that FROM and moves the cursor past it |
| QueryProperties.SelectStep | src/QueryParser.cpp:36-66 | a loop turn at SELECT takes the columns before the next FROM and resumes past it |
| QueryProperties.ColumnsBeforeFrom | src/QueryParser.cpp:86-94 | trimmed columns without ',' joined with ',' and followed by the space before FROM split back into the same list |
| QueryProperties.WhereAt | src/QueryParser.cpp:68-79 | "WHERE " then conditions, then the end of the query or its first ';' and anything after it: the conditions are read from that text alone |
| QueryProperties.WhereAny | src/QueryParser.cpp:68-79 | on any text, the conditions are read from what follows the spaces after WHERE up to the first ';' or the end |
| QueryProperties.WhereStep | src/QueryParser.cpp:36-79 | a loop turn at " WHERE" skips the space and reads the conditions up to the first ';' or the end |
| QueryProperties.ScanWhere | src/QueryParser.cpp:68-79 | the scan from " WHERE conditions", up to the first ';' or the end, sets the conditions or fails as they do |
| QueryProperties.ScanFromWhere | src/QueryParser.cpp:40-79 | the scan from "FROM table WHERE conditions", up to the first ';' or the end, sets the table and the conditions |
| QueryProperties.ScanFromOnly | src/QueryParser.cpp:40-52 | the scan from "FROM table" sets the table and ends |
| QueryProperties.RejectsNonKeyword | src/QueryParser.cpp:81 | a query whose second word starts no keyword is rejected, quoting the rest of the query |
| QueryProperties.DemoRejected | src/QueryParser.cpp:132 | the program's own demonstration query is rejected at "id, name ..." |
| QueryProperties.FromWhere | src/QueryParser.cpp:23-84 | "type FROM table WHERE conditions", with or without a ';' and text after it, parses to that type, table and conditions, with no columns |
| QueryProperties.FromOnly | src/QueryParser.cpp:23-84 | "type FROM table" parses to that type and table |
| QueryProperties.SelectOnly | src/QueryParser.cpp:23-84 | "type SELECT columns FROM" parses to that type and the columns split from the text before FROM, with no table |
| QueryProperties.ColumnsQuery | src/QueryParser.cpp:23-84 | "type SELECT " + the columns joined with ',' + " FROM" parses back to exactly those columns |
| QueryProperties.ScanSelectThenTable | src/QueryParser.cpp:54-81 | from "SELECT columns FROM table" the scan resumes before the table and rejects it |
| QueryProperties.TableAfterSelectRejected | src/QueryParser.cpp:23-84 | "type SELECT columns FROM table" is rejected with the table as the unexpected input |
| QueryProperties.ColumnsThenTable | src/QueryParser.cpp:23-84 | "X SELECT a FROM users" is rejected at "users" |
| QueryProperties.ScanSelectThenFrom | src/QueryParser.cpp:40-66 | from "SELECT columns FROM FROM table" the scan sets the columns, then the table, and ends |
| QueryProperties.FromFromAfterSelect | src/QueryParser.cpp:23-84 | "type SELECT columns FROM FROM table" parses to the columns and the table |
| QueryProperties.ColumnsThenFromTable | src/QueryParser.cpp:23-84 | "X SELECT a FROM FROM users" has the columns ["a"] and the table "users" |
| QueryProperties.SemicolonInTable | src/QueryParser.cpp:45 | the ';' of "SELECT FROM users;" stays in the table |
| QueryProperties.OneConditionQuery | src/QueryParser.cpp:23-84 | a query rendered with one condition parses back to it |
| QueryProperties.OneConditionQueryTail | src/QueryParser.cpp:23-84 | the same query without the ';', or with text after it, parses to the same fields |
| QueryProperties.ConditionsEndAtEnd | src/QueryParser.cpp:68-79 | "t FROM a WHERE x=1", with no ';', parses to the condition `x = 1` |
| QueryProperties.ConditionsEndAtSemicolon | src/QueryParser.cpp:70-75 | "t FROM a WHERE x=1; junk" parses to the condition `x = 1`, dropping the text after the ';' |
| QueryProperties.TwoConditionQuery | src/QueryParser.cpp:23-84 | a query rendered with two conditions joined by " AND " parses back to both, in order |
| FailureRecovery.Stored | src/FailureRecoveryTest.cpp:22-25 | `get` gives the stored value, or "" for a key the node does not hold |
| FailureRecovery.Apply | src/FailureRecoveryTest.cpp:15-34 | a crashed node stays down and keeps its data; `put` on a live node stores the value; no call changes another key |
| FailureRecovery.CrashIsFinal | src/FailureRecoveryTest.cpp:15-21 | after `crash`, no sequence of calls revives the node or changes its data |
| FailureRecovery.UntouchedKey | src/FailureRecoveryTest.cpp:16-25 | calls without a `put` of a key leave what `get` returns for it |
| FailureRecovery.Node.constructor | src/FailureRecoveryTest.cpp:13 | a new node is up, with no data and no blocked peers |
| FailureRecovery.Node.Crash | src/FailureRecoveryTest.cpp:15 | the node goes down; data and blocked peers are unchanged |
| FailureRecovery.Node.Put | src/FailureRecoveryTest.cpp:16-21 | stores or overwrites the pair only while the node is up |
| FailureRecovery.Node.Get | src/FailureRecoveryTest.cpp:22-25 | the stored value, or "" for an absent key, whether the node is up or down |
| FailureRecovery.Node.GetId | src/FailureRecoveryTest.cpp:26 | the id the node was built with |
| FailureRecovery.Node.BlockCommunication | src/FailureRecoveryTest.cpp:27-30 | adds the peer to the blocked set and changes nothing else |
| FailureRecovery.Node.UnblockCommunication | src/FailureRecoveryTest.cpp:31-34 | removes the peer from the blocked set and changes nothing else |
| FailureRecovery.Node.IsActive | src/FailureRecoveryTest.cpp:35 | whether the node has not crashed |

Lemmas and functions without a row are proof helpers, not properties of the
source: sequence and arithmetic identities (`AppendAssoc`, `ConsAppend`,
`PrependNothing`, `PrependPrepend`,
`SmallMod`, `ModShift`, `ModSmall`, `ModNegative`, `ModLarge`, `JoinLast`,
`LastSplit`, `TrimSpaced`), unfoldings of one definition
(`QueryProperties.OneCondition`, `QueryProperties.TwoConditions`,
`QueryProperties.ScanResumes`, `Store.LookupCons`, `Store.HitsStep`,
`QueryProperties.AfterSelectFound`, `QueryProperties.ScanStepSelect`), and
the steps of the SELECT lemmas (`FindAt`, `SelectPrefix`, `SelectColumns`,
`FromAfterColumns`, `ColumnsSpaceFrom`, `PatternAfterSpaceAt`,
`NoPatternBeforeSpace`, `SelectHead`, `TrimSpacedLast`, `SpacedPieces`,
`SpacedNoComma`, `ScanSelectOnly`, `RejectedAfterTurn`, `TableAfterFrom`,
`SelectTableText`, `SelectThenToken`, `FromEndsAfterTurn`,
`FromAfterSpace`, `EndsAfterTwoTurns`, `ScanAfterTurn`, `SelectFromFromText`).

## Left out

- Sockets, threads, `std::mutex`, `sleep`, console output and `main` are
  not modelled. This covers the whole failure-test driver and the
  `simulate*` functions.
- The failure-test `Node` is modelled one call at a time, so the mutex has
  nothing to add.
- `Communication`, `DataNode`, `Client` and the test client and server are
  not part of this model.
  - So are the empty `DataStore`, `ReplicationManager` and `ServerNode`
    classes, the stub classes, the sharding and replication demo, and
    `DistributedDB`'s destructor.
- `std::hash<std::string>` is a parameter. `DistributedDB` receives it as a
  constructor argument and `ShardData` as an argument. Its actual values are
  platform-defined.
- Message.DefaultMessage: `Message message;` leaves `port` and `node_id`
  uninitialised in C++. The model fixes them to 0, so the value of a
  scalar field the codec does not read is not modelled.
- `RegistrationData` is declared in `src/message.h` but never written or
  read by the codec. `Decode` and `Relevant` set it to
  `RegistrationData(0, [])`, so a round trip returns that default, not the
  original value.
- Codec strings are modelled as byte sequences. The model has no text
  encoding.
- A string of 2^32 bytes or more has its length truncated by the
  `uint32_t` cast. The round-trip lemmas require `WellSized`, which rules
  this out.
- Deserializer.ReadUint32, Deserializer.ReadInt, Deserializer.ReadString,
  Deserializer.ReadNodeInfo and Deserializer.ReadNodes require
  `pos <= |buffer|`. `deserialize` only ever calls them with such a cursor.
- Store.DistributedDB.GetNode requires `totalNodes > 0`. With a count of 0
  the source divides by zero. A negative count converts to a huge `size_t`
  in `hash % totalNodes`, and the undefined behaviour is then the indexing
  of the empty `nodes` vector.
  - Store.DistributedDB.Put and Store.DistributedDB.Get carry the same
    requirement.
- Store.InMemoryNode.Write: the version is the unbounded record count. The
  narrowing of `size() + 1` to `int` is not modelled.
- Store.DistributedDB.Replicate: `primary + i` is unbounded. The `int`
  overflow for an `rf` near 2^31 is not modelled.
- Store.DistributedDB.constructor takes `rf` explicitly. The source's
  default of 3 is up to the caller.
- `ShardNode`'s data list is carried but never read by `shardData`.
- `Node::start` only prints, so it is not modelled.
- QueryParser.Scan states only what every outcome shares. What the scan
  yields on whole queries is in the `QueryProperties` lemmas, for the
  forms FROM, FROM-WHERE, SELECT-FROM, SELECT-FROM-table,
  SELECT-FROM-FROM-table and a rejected non-keyword.
- QueryParser.Turn: the body of `parse`'s loop is split into `Turn` and one
  method per keyword branch (`TakeTable`, `TakeColumns`, `TakeConditions`).
  `Parse` runs the loop over `Turn`.
- `string::npos` is `None` for `find`. `FirstNonBlank` gives `|s|` where
  `find_first_not_of` gives `npos`. `EndNonBlank` is one past the position
  `find_last_not_of` returns, and 0 when every character is blank; `trim`
  returns "" before it is used in that case.
  - `pos = npos` after a FROM at the end becomes the end of the query, which
    also ends the source's loop.
- `getline` over a `stringstream` is modelled by the `Getline` and
  `Pieces` functions. Stream state and failure bits are not modelled.
- `isspace` is the "C" locale's set: space, `\t`, `\n`, `\v`, `\f`, `\r`.
  `trim` strips only spaces and tabs, as in the source.
