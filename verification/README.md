# A model of the phpredis 6.0.2 client

A Dafny project that models the hard core of the phpredis 6.0.2 client kept under `redis-6.0.2/`
and proves what its documentation, its tests and its structure promise. `dafny verify
dfyconfig.toml` checks everything.

Objects that the C code updates in place (the cluster and its slot table, a connection and its
callback queue, the reply stream, the command buffer, the connection pool, a socket that reconnects,
the backoff state, the stores of a RedisArray) are classes whose methods follow the functions of the source, branch by
branch. Each method is proved against a function of the old state, and the theorems are about
those functions or are invariants that every method keeps.

| files | what they model |
|---|---|
| `Bytes`, `Resp`, `RespTheorems`, `RespReader`, `RespWriter` | RESP: the writers, the recursive one-pass reader, the two-pass reader of the cluster |
| `PipelineReplies`, `Pipeline` | the MULTI and PIPELINE modes, the queue of reply callbacks, the reply loop of `exec()` |
| `Gf2`, `Crc16`, `HashSlot` | table-driven CRC-16 against polynomial division, hash tags, key prefixes |
| `Shuffle`, `SlotSpec`, `SlotTable`, `SlotCache` | the slot table: built from CLUSTER SLOTS, repaired by MOVED, saved to and loaded from the slot cache |
| `Redirect`, `Wire`, `Routing` | the text of redirections, the servers as an environment, the request loop with ASKING, READONLY, MULTI and all failover strategies |
| `NodeLookup`, `Scatter`, `Migration` | RedisArray: from hash to node, scatter and gather of MGET, MSET and DEL, reads through two rings |
| `Pool`, `Lz4Frame` | persistent connections, the checksummed LZ4 frame |
| `Backoff`, `Reconnect` | retry delays, and the check before every write that replaces a lost connection |

The servers of `Routing` are an environment (`Wire.World`). *Arbitrary* servers answer anything,
and may close a connection at any time. *Covering* ones give complete slot maps. *Dropping* ones
accept everything, but close the connection after every answer. *Stable* ones have one owner per
slot, are always reachable and in time, redirect to the owner, and give slot maps that say so.
Every contract that does not name a world holds for arbitrary servers. A send or an answer is a
nondeterministic choice, `Cluster.log` records the run with its reconnections, and
`Cluster.repairs` the updates of the slot table. `Reconnect` takes the network's answers and the
random draws from a given sequence instead, after which nothing fails any more.

## Where the code does less than it seems to promise

Each of these is proved, with the exact condition.

- A MOVED to an unknown address is undefined if and only if the slot's node has no replicas (`Bare`):
  its table of replicas is then a null pointer, which the search for a failover walks unguarded
  (`UpdateSlot`). It happens when a master joins a cluster without replicas
  (`NewMasterUndefined`). With stable servers a command succeeds if and only if its slot is not
  blocked in this way (`SendCommand`); no slot becomes blocked, and a session is defined if and only
  if it leaves no slot it used blocked (`Session`).
- With reads distributed over a slot's nodes an ASK is not obeyed: its target gets the ASKING, and
  the payload goes to the slot's own nodes (`SockWrite`, under `Bypasses`).
- ASKING is acknowledged before each payload to the target of an ASK, but a connection that is lost
  in between is replaced before the payload is sent: the server knows of the ASKING if and only if
  there was no reconnection (`AskedFirst`). `DroppedAsking` is the failing record, which servers
  that drop connections produce (`SockWrite`). The same holds of READONLY, whose flag outlives the
  connection (`ReadonlyFirst`, `DroppedReadonly`, `TryReplica`).
- A failover remap with a slot map that lacks a slot in use leaves that slot on a node that the
  table of nodes does not know. A valid table stays valid if and only if `KeepsValid` holds
  (`MapKeyspace`, `UpdateSlot`), over any sequence of redirections too (`Session`);
  `IncompleteMapStrands` is a concrete case.
- The sleep of one `redis_check_eof` is at most max_retries times the cap if and only if there is
  no password, no database to select and no ECHO check, or no delay at all (`BoundedIff`).
  Otherwise logging in on a new connection checks it again, with a retry loop of its own, and there
  is no bound (`Unbounded`); one dropped AUTH already doubles the sleep (`DroppedAuth`). `usleep`
  keeps 32 bits of a delay, so that some delays of more than an hour are none (`CanSleep`).
- A reply loop over MULTI..EXEC blocks succeeds if and only if no command of a block was refused.
  Otherwise the answers behind the refusal stay in the stream, where the next command reads them
  (`RepliesAligned`).
- The one-pass and the two-pass decoder agree except that nil bulks are false in one and null in
  the other (`DecodersAgree`, `SameValuesIffNoNil`), up to the first status or error line that is
  longer than the cluster's buffer: what remains of it is read as the next reply (`TornStream`,
  `TornIfLong`, `LongLineSplits`).
- The header written by `redis_spprintf` counts its arguments if and only if every specifier of
  the format is known (`HeaderCount`).
- The slot cache gives a slot its owner in every order of loading if and only if CLUSTER SLOTS gave
  the slot to one address (`SlotRoundTrip`, `AmbiguousSlotMoves`).
- MOVED for an empty slot and an unknown address leaves a node that the table of nodes does not
  know; in all other defined cases without a failover a valid table stays valid (`UpdateSlot`).
- A slot map may name slots outside the table; the outcome is then `OutOfTable` or `Undefined`, and
  `WildAnswers` says when (`MapKeyspace`).
- The comment on `cluster_set_redirection` says that a parse error modifies nothing; the code has
  then already counted the redirection, and the model follows the code (`SetRedirection`). It also
  follows the code where a MOVED names a slot of 16384 or more, or a malformed slot map has emptied
  the slot: the outcome is `Undefined` there too.
- MGET lines up with its keys if and only if no node's reply is too short (`MgetComplete`,
  `MissingIffShort`).
- Reading through two rings is right for exactly those commands that fail on absent keys and only
  on those, and for constant ones (`SafeCommands`): not for EXISTS, nor for HEXISTS or HGET of a
  missing field. DEL brings the value of the old ring back unless that ring has none
  (`DelRemoves`).
- Without a ring, the position of a node is in range if and only if the 32-bit hash is not zero
  (`ScaledInRange`), that is, unless the key's last four bytes spell the register before them
  (`VanishesIff`, `KeyInRange`): four bytes 0xff do (`PastTheEnd`).
- The pool counts a stream twice on its way out if and only if the liveness check's ECHO cannot be
  written because no retry replaces its connection, or the reply to it is lost (`Connect`).
- A value that LZ4 did not compress comes back as it is if and only if it does not look like a
  frame (`Lz4Frame.RoundTrip`).

## Model

| member | source | states |
|---|---|---|
| Bytes.AtolInverse | redis-6.0.2/library.c:4155-4167 | reading a printed number back gives the number, whatever non-digit follows |
| Crc16.Checksum | redis-6.0.2/crc16.h:81-87 | the table-driven loop computes the remainder of dividing the message, followed by 16 zero bits, by x^16 + x^12 + x^5 + 1 |
| Crc16.TableEntry | redis-6.0.2/crc16.h:46-79 | each of the 256 table entries is the remainder of its index times x^16 |
| Crc16.CrcStep | redis-6.0.2/crc16.h:84-85 | one turn of the loop is division of one more byte |
| Crc16.CrcLinear | redis-6.0.2/crc16.h:81-87 | the crc of the xor of two messages of equal length is the xor of their crcs |
| Gf2.DivideLinear | redis-6.0.2/crc16.h:81-87 | polynomial division is linear in remainder and message |
| HashSlot.HashKey | redis-6.0.2/cluster_library.c:505-526 | the two scanning loops compute the slot of the hashed part, always below 16384 |
| HashSlot.TagIsHashed | redis-6.0.2/cluster_library.c:516-525 | p{t}q with brace-free p and non-empty t without closing brace hashes exactly t |
| HashSlot.TaggedOrWhole | redis-6.0.2/cluster_library.c:509-525 | every key either has such a tag or is hashed whole |
| HashSlot.SameTagSameSlot | redis-6.0.2/cluster_library.c:505-526 | keys with the same tag have the same slot, whatever surrounds the tag |
| HashSlot.PrefixKeepsTag | redis-6.0.2/library.c:4041-4058 | prepending a brace-free prefix never moves a tagged key |
| HashSlot.TaggedPrefixCollects | redis-6.0.2/library.c:4041-4058 | a prefix with a tag of its own sends every key to the prefix's slot |
| RespReader.Stream.GetLine | redis-6.0.2/library.c:4105-4132 | one line of at most the buffer's size, its line end removed, the rest unread |
| RespReader.Stream.ReplyType | redis-6.0.2/library.c:4134-4172 | the type byte and, for counted types, the number on the line |
| RespReader.Stream.BulkReply | redis-6.0.2/library.c:713-751 | the data whatever the sizes of the chunks it arrives in, without its line end; nothing if the stream ends early |
| RespReader.Stream.MultibulkRecursive | redis-6.0.2/library.c:4221-4278 | the one-pass reader computes ReadMultibulk and leaves its rest unread |
| RespReader.Stream.Variant | redis-6.0.2/library.c:4280-4334 | a top-level reply of any type |
| RespReader.Stream.TreeRecursive | redis-6.0.2/cluster_library.c:119-174 | the two-pass reader's tree is ReadTree, and its rest is unread |
| RespTheorems.OnePassExact | redis-6.0.2/library.c:4221-4278 | encoded replies of any nesting are read back as their values and nothing more is consumed |
| RespTheorems.OnePassShort | redis-6.0.2/library.c:4221-4278 | a reply with fewer elements than announced fails, with the values read so far |
| RespTheorems.TwoPassExact | redis-6.0.2/cluster_library.c:119-174 | encoded replies of any nesting are read as their trees and nothing more is consumed |
| RespTheorems.ConvertTree | redis-6.0.2/cluster_library.c:2081-2120 | converting the tree of a reply gives its value |
| RespTheorems.DecodersAgree | redis-6.0.2/cluster_library.c:2081-2120 | both decoders consume the same bytes and give the values that differ in nil bulks only |
| RespTheorems.SameValuesIffNoNil | redis-6.0.2/cluster_library.c:2081-2120 | the two values are equal if and only if the reply holds no nil bulk |
| RespTheorems.LongLineSplits | redis-6.0.2/cluster_library.c:127-147 | a status or error line leaves both readers at the same place if and only if it fits the cluster's line buffer |
| RespTheorems.TornStream | redis-6.0.2/cluster_library.c:119-174 | for replies of any nesting the two-pass reader makes the same of the stream as of the one in which the first line that is too long ends at the buffer's limit and its remainder follows as the next reply |
| RespTheorems.TornIfLong | redis-6.0.2/cluster_library.c:119-174 | the two streams differ if and only if some line, at any depth, is too long |
| RespTheorems.VariantExact | redis-6.0.2/library.c:4280-4334 | any well-formed reply is read back exactly at top level |
| RespWriter.SmartString.InitCommand | redis-6.0.2/library.c:1011-1021 | appends the array header for the keyword and its arguments, and the keyword |
| RespWriter.SmartString.AppendArg | redis-6.0.2/library.c:1026-1035 | appends the encoded bulk string, any bytes allowed |
| RespWriter.SmartString.Format | redis-6.0.2/library.c:938-1005 | the command with the prefixed, formatted arguments, and the slot of the last key |
| RespWriter.CommandRoundTrip | redis-6.0.2/library.c:1011-1035 | a written command is read as its keyword and arguments, byte for byte, and what follows stays unread |
| RespWriter.HeaderCount | redis-6.0.2/library.c:938-1005 | the header's count equals the appended arguments if and only if all specifiers are known |
| RespWriter.FormatDecodes | redis-6.0.2/library.c:938-1005 | a formatted command decodes completely if and only if all specifiers are known |
| Pipeline.FoldQueue.Save | redis-6.0.2/common.h:195-207 | the callback goes to the end of the linked list, head and current stay its ends |
| Pipeline.FoldQueue.Free | redis-6.0.2/library.c:3576-3587 | the list is empty afterwards |
| Pipeline.RedisSock.Enqueue | redis-6.0.2/common.h:179-207 | the command goes to the buffer, the callback to the queue, and they stay in step |
| Pipeline.RedisSock.Multi | redis-6.0.2/redis.c:1857-1915 | every mode change of multi(), with what is sent, queued and read |
| Pipeline.RedisSock.StartPipeline | redis-6.0.2/redis.c:2092-2120 | pipeline() sets its bit unless MULTI is on |
| Pipeline.RedisSock.Process | redis-6.0.2/common.h:209-247 | a command is queued, sent and acknowledged, or sent and answered, by mode |
| Pipeline.RedisSock.ReplyLoop | redis-6.0.2/redis.c:2047-2090 | walking the linked list computes ReadReplies: the values, success or failure, and what is left unread in either case |
| Pipeline.RedisSock.Exec | redis-6.0.2/redis.c:1972-2030 | exec() by mode: what it sends, its result and the unread rest as a function of queue and stream, and the modes after it |
| Pipeline.RedisSock.Discard | redis-6.0.2/redis.c:1918-1948 | discard() by mode; on success both bits are off and the queue is empty |
| Pipeline.RedisSock.Reset | redis-6.0.2/redis.c:713-754 | reset() does nothing in PIPELINE mode; on success the queue is empty |
| PipelineReplies.InStepPipelined | redis-6.0.2/common.h:179-207 | queueing keeps: markers odd if and only if MULTI and PIPELINE are both on, one buffered command per item, markers are MULTI and EXEC in turn |
| PipelineReplies.EvenQueueIsGroups | redis-6.0.2/redis.c:2047-2090 | a queue with an even number of markers is a sequence of plain commands and blocks |
| PipelineReplies.RepliesAligned | redis-6.0.2/redis.c:2047-2090 | on the server's answers the loop succeeds if and only if no command of a block was refused; then it consumes exactly the answers and returns one entry per group in order; otherwise exactly what is behind the first refusal stays unread |
| PipelineReplies.ExecAligned | redis-6.0.2/redis.c:1950-1968 | in MULTI mode alone EXEC's header, with any number, and one reply per callback are consumed exactly, with one entry each in order |
| PipelineReplies.ExecRefused | redis-6.0.2/redis.c:1950-1968 | a nil array or an error fails exec() and is all that is read |
| PipelineReplies.BufferDecodes | redis-6.0.2/redis.c:2007-2024 | the server reads the pipeline buffer as exactly the queued commands in order |
| PipelineReplies.QueueDecodes | redis-6.0.2/redis.c:1987-2024 | of a queue in step with its buffer the server reads each command's words in order, with MULTI and EXEC in turn at the markers |
| Shuffle.FisherYates | redis-6.0.2/cluster_library.c:582-593 | the array is a permutation of what it was, for all random draws |
| Shuffle.EachOnce | redis-6.0.2/cluster_library.c:1250-1254 | a permutation of the numbers below n lists each once |
| Shuffle.ShuffledSelection | redis-6.0.2/cluster_library.c:984-994 | visiting the entries by shuffled positions visits a permutation of them |
| SlotSpec.SlotRoundTrip | redis-6.0.2/cluster_library.c:887-1033 | a slot given to one address has the same owner after the cache, in every order |
| SlotSpec.AmbiguousSlotMoves | redis-6.0.2/cluster_library.c:1021-1028 | a slot given to two addresses has another owner in some order |
| SlotTable.ClusterNode.AddSlave | redis-6.0.2/cluster_library.c:652-667 | replicas are keyed 1, 2, ... without gaps, the new one last |
| SlotTable.Table.CreateMaster | redis-6.0.2/cluster_library.c:704-726 | the new master has its row's replicas with a host in order; a malformed one fails |
| SlotTable.Table.MapSlots | redis-6.0.2/cluster_library.c:678-744 | maps if and only if the reply validates and stays inside the table; then each covered slot points to the node of the last row that covers it and each node has its rows' ranges and its first row's replicas, and the table is valid if and only if no slot that was in use is uncovered |
| SlotTable.Table.MapKeyspace | redis-6.0.2/cluster_library.c:1079-1114 | maps the first acceptable reply; a malformed one before it empties every slot; the table is valid afterwards if and only if the first slot map is malformed or the mapped one strands no slot, or, when none arrives, if it was valid |
| SlotTable.Table.Repoint | redis-6.0.2/cluster_library.c:1418-1447 | once no failover is found, the slot alone changes and points to the address's node, known or new |
| SlotTable.Table.UpdateSlot | redis-6.0.2/cluster_library.c:1384-1448 | undefined if and only if the address is unknown and the slot's node has no replicas, or a remap writes outside the table; otherwise, without a failover, only the redirected slot changes and ends at the address, and a failover remaps; a valid table stays valid if and only if KeepsValid held: no slot in use is stranded by a remap, and otherwise the slot was in use or the address known |
| SlotTable.Table.CoveredIsValid | redis-6.0.2/cluster_library.c:1404-1417 | after a remap by a complete reply, every slot points to the node stored under the address the reply gives |
| SlotTable.IncompleteMapStrands | redis-6.0.2/cluster_library.c:1404-1417 | a valid table in which a failover, with a slot map that names slot 0 only, leaves slot 1 on a node that is no longer known |
| SlotTable.NewMasterUndefined | redis-6.0.2/cluster_library.c:1404-1417 | a valid, complete table of one master without replicas on which a MOVED to a new address is undefined |
| SlotCache.CacheCreate | redis-6.0.2/cluster_library.c:887-928 | one entry per master with its ranges and replicas, none for anything else |
| SlotCache.InitCache | redis-6.0.2/cluster_library.c:975-1033 | in a shuffled order, slots go to the last entry that covers them, and nodes and seeds are exactly the entries' |
| SlotCache.CacheRoundTrip | redis-6.0.2/cluster_library.c:887-1033 | for every order the loaded table gives every slot the same address and every master the same ranges and replicas as the mapped one |
| Redirect.ReadAddrInverse | redis-6.0.2/cluster_library.c:1050-1064 | the last colon separates host and port, so that hosts with colons are read back |
| Redirect.NodeKeyInjective | redis-6.0.2/cluster_library.c:701-705 | different addresses have different node keys |
| Redirect.ReadRedirectionInverse | redis-6.0.2/cluster_library.c:1127-1143 | the payload of MOVED and ASK is read back as its slot and address, the host cut at 254 bytes |
| Wire.AskedFirst | redis-6.0.2/cluster_library.c:1320-1326 | in an orderly record each payload to an ASK target comes after an acknowledged ASKING with nothing but reconnections between them on that socket; the ASKING covers it if and only if there is none |
| Wire.ReadonlyFirst | redis-6.0.2/cluster_library.c:1264-1273 | in an orderly record each payload to a replica comes after an acknowledged READONLY, which covers it if and only if no reconnection lies between |
| Wire.OneRowEachMaps | redis-6.0.2/cluster_library.c:678-744 | one row per slot is an acceptable reply that gives each slot its owner |
| Wire.MovedToReads | redis-6.0.2/cluster_library.c:1180-1186 | a MOVED line is taken for one, with its slot and address |
| Routing.Cluster.SendPayload | redis-6.0.2/cluster_library.h:57-60 | the payload goes out, after a reconnection if the connection was lost outside MULTI mode; the record stays orderly |
| Routing.Cluster.SendReadonly | redis-6.0.2/cluster_library.c:282-296 | READONLY is sent once per socket until acknowledged |
| Routing.Cluster.TryReplica | redis-6.0.2/cluster_library.c:1264-1273 | a replica gets the payload only after READONLY was acknowledged, now if its socket was not flagged; a flagged socket that has dropped its connection gets the payload right after a reconnection |
| Routing.Cluster.TryNode | redis-6.0.2/cluster_library.c:1264-1273 | the node accepted the payload last, with an acknowledged READONLY in the record of a replica not flagged before, or it refused |
| Routing.Cluster.DistWrite | redis-6.0.2/cluster_library.c:1235-1281 | each eligible node gets the payload at most once, never the master if excluded; success makes the one acceptor the command socket, failure means all refused |
| Routing.Cluster.Fallback | redis-6.0.2/cluster_library.c:1353-1367 | other known masters are tried until one accepts; failure means all refused |
| Routing.Cluster.WriteByStrategy | redis-6.0.2/cluster_library.c:1333-1348 | the four failover strategies: who is tried, and what a failure has exhausted |
| Routing.Cluster.WriteAnywhere | redis-6.0.2/cluster_library.c:1333-1367 | the strategy's nodes and then the fallback; the payload is delivered exactly once and last, or to nobody after everybody refused |
| Routing.Cluster.SockWrite | redis-6.0.2/cluster_library.c:1306-1368 | ASKING first in ASK state, then as WriteAnywhere; servers that drop connections get the payload on a connection that has seen no ASKING; with reads distributed the payload never goes to an ASK target that is not the slot's own node |
| Routing.DroppedAsking | redis-6.0.2/cluster_library.h:57-60 | that record is orderly, and yet a reconnection is the last thing before the payload |
| Routing.DroppedReadonly | redis-6.0.2/cluster_library.c:282-296 | a read from a flagged replica after a reconnection is orderly, and the server does not know of the READONLY |
| Routing.Cluster.SetRedirection | redis-6.0.2/cluster_library.c:1119-1146 | a MOVED is counted even if it cannot be parsed; otherwise type, slot and address are taken |
| Routing.Cluster.CheckResponse | redis-6.0.2/cluster_library.c:1159-1211 | the three results by reply, the redirection state, the counter and the CLUSTERDOWN flag |
| Routing.Cluster.GetAskingNode | redis-6.0.2/cluster_library.c:760-779 | the known node of the address, or a new one that is not remembered |
| Routing.Cluster.FollowMoved | redis-6.0.2/cluster_library.c:1384-1448 | whatever the servers answer, the repair of a valid table is valid if and only if it was harmless; with complete slot maps it is undefined if and only if the address is unknown and the slot's node has no replicas; with stable servers the wrong slots get fewer and no slot becomes wrong or blocked |
| Routing.Cluster.Redirect | redis-6.0.2/cluster_library.c:1585-1592 | ASK leaves table and nodes alone and moves the socket to the address; a MOVED that can be followed updates the table and takes the slot's node |
| Routing.Cluster.Exchange | redis-6.0.2/cluster_library.c:1558-1577 | one write and one answer; with stable servers one attempt, answered by the owner or redirected to it |
| Routing.Cluster.Round | redis-6.0.2/cluster_library.c:1556-1598 | one round: at most one reply, which ends it; no table change without MOVED or in MULTI mode; with stable servers it is undefined if and only if the slot is blocked |
| Routing.Cluster.Loop | redis-6.0.2/cluster_library.c:1555-1599 | the request loop: each MOVED counted, no table change without one, repairs as in FollowMoved; with stable servers it is undefined if and only if the slot was blocked, and otherwise two rounds suffice |
| Routing.Cluster.SendCommand | redis-6.0.2/cluster_library.c:1530-1622 | a return of 0 means the last reply is no redirection and the redirection state is clear; no redirection is followed in MULTI mode; with stable servers success if and only if the slot was not blocked, with one attempt, or two and one redirection if the slot was wrong |
| Routing.ValidThroughout | redis-6.0.2/cluster_library.c:1384-1448 | over any history of repairs a valid table is valid after each if and only if all were harmless |
| Routing.Cluster.Session | redis-6.0.2/cluster_library.c:1530-1622 | over any sequence of commands the record stays orderly and a valid table is valid after every repair if and only if all were harmless; complete slot maps keep it valid and complete; with stable servers no slot becomes blocked, the run is defined if and only if it leaves no slot it used blocked, and all its redirections together are at most the slots wrong at the start |
| NodeLookup.FindPosition | redis-6.0.2/redis_array_impl.c:517-530 | the binary search finds the first point not before the hash, or wraps to the first |
| NodeLookup.RemovalIsLocal | redis-6.0.2/redis_array_impl.c:517-530 | taking a node out of the ring moves only its own keys |
| NodeLookup.ScaledInRange | redis-6.0.2/redis_array_impl.c:532 | the scaled position is below the number of nodes if and only if the hash is not zero |
| NodeLookup.Hash | redis-6.0.2/redis_array_impl.c:511-513 | the hashing loop computes Crc |
| NodeLookup.VanishesIff | redis-6.0.2/redis_array_impl.c:511-513 | a key has the hash zero if and only if its last four bytes spell the register before them |
| NodeLookup.KeyInRange | redis-6.0.2/redis_array_impl.c:511-532 | the position of a key's node is in range if and only if its last four bytes do not |
| NodeLookup.PastTheEnd | redis-6.0.2/redis_array_impl.c:511-532 | four bytes 0xff have the hash zero, and their position is the number of nodes |
| Scatter.Associate | redis-6.0.2/redis_array.c:772-807 | pos holds the node of each key and argc_each the keys per node; fails if some key has no node |
| Scatter.Mget | redis-6.0.2/redis_array.c:741-865 | fails if and only if a key is unusable or a called node does not reply with an array; otherwise the gathered values |
| Scatter.MgetAligned | redis-6.0.2/redis_array.c:741-865 | if nodes answer one value per key in order, index i holds the value of key i on its node, duplicates included |
| Scatter.MgetComplete | redis-6.0.2/redis_array.c:850-857 | there are as many values as keys if and only if no value is missing |
| Scatter.MissingIffShort | redis-6.0.2/redis_array.c:839-844 | no value is missing if and only if each node's reply is at least as long as its keys |
| Scatter.Mset | redis-6.0.2/redis_array.c:869-988 | the calls are Scattered(pairs), or none if some key has no node |
| Scatter.GenericDel | redis-6.0.2/redis_array.c:991-1109 | the calls are Scattered(keys), and the total is the sum of what they return |
| Scatter.ScatterConserves | redis-6.0.2/redis_array.c:926-965 | all calls together send each item exactly once |
| Scatter.ScatterRoutes | redis-6.0.2/redis_array.c:926-965 | no node is called twice or with nothing, and each call carries its own node's items in order |
| Scatter.PickedAt | redis-6.0.2/redis_array.c:817-845 | item i is at the index of its node's arguments that the gathering loop counts |
| Migration.RedisArray.ForwardCall | redis-6.0.2/redis_array.c:231-331 | a read's reply and the stores after it, with fallback to the old ring and the move |
| Migration.RedisArray.Set | redis-6.0.2/redis_array.c:304-306 | a write changes the new ring's node only |
| Migration.ReadKeepsLogical | redis-6.0.2/redis_array.c:304-321 | a safe read returns the logical value, changes no key's logical value, and leaves a found key on the new ring |
| Migration.SafeCommands | redis-6.0.2/redis_array.c:31-35 | reads are right on all stores if and only if the command fails exactly on absent keys or always says the same |
| Migration.WrongAnswer | redis-6.0.2/redis_array.c:304-321 | for any other command, stores that give a wrong answer |
| Migration.RunKeepsMap | redis-6.0.2/redis_array.c:231-331 | over any run of safe reads and overwriting writes the two rings behave as one map |
| Migration.DelRemoves | redis-6.0.2/redis_array.c:991-1109 | a deleted key is gone if and only if the old ring has no other node with it |
| Pool.ConnectionPool.Disconnect | redis-6.0.2/library.c:3215-3245 | a stream is closed and uncounted, or goes back to the front of the idle list |
| Pool.ConnectionPool.TakeIdle | redis-6.0.2/library.c:3097-3107 | the last idle stream is taken and kept if alive |
| Pool.ConnectionPool.Connect | redis-6.0.2/library.c:3058-3175 | no stream is in two places, the count stays within the limit, and it loses a stream if and only if the ECHO of a checked stream, or the reply to it, is lost |
| Pool.Run | redis-6.0.2/library.c:3058-3245 | over any run without a lost ECHO or ECHO reply the count is idle plus held streams |
| Lz4Frame.Crc8 | redis-6.0.2/library.c:3625-3640 | the nested loops compute Crc8Of |
| Lz4Frame.OneByteChanges | redis-6.0.2/library.c:3625-3640 | inputs of equal length that differ in exactly one byte have different checksums |
| Lz4Frame.IntRoundTrip | redis-6.0.2/library.c:3719-3724 | a 32-bit length is read back from memory |
| Lz4Frame.Compress | redis-6.0.2/library.c:3693-3748 | the frame if the value has 1 to INT_MAX bytes and compresses, otherwise the value itself |
| Lz4Frame.Uncompress | redis-6.0.2/library.c:3800-3844 | what a source gives by header, checksum, length and decompression |
| Lz4Frame.RoundTrip | redis-6.0.2/library.c:3643-3844 | compressed values are restored; others come back unchanged if and only if they do not look like a frame |
| Lz4Frame.Damaged | redis-6.0.2/library.c:3814-3825 | after any change to one byte of the header the source is returned unchanged |
| Backoff.DelayAllowed | redis-6.0.2/backoff.c:25-90 | whatever is drawn, the delay is at most the cap and what its algorithm allows |
| Backoff.RedisBackoff.Compute | redis-6.0.2/backoff.c:60-90 | the delay of the chosen algorithm; what decorrelated jitter stores after n draws is at most base times 3 to the power n-1 |
| Backoff.EqualJitterBackoff | redis-6.0.2/backoff.c:53-58 | at least half the capped exponential term, and at most the term |
| Backoff.RedisBackoff.Reset | redis-6.0.2/backoff.c:84-86 | the history is forgotten |
| Backoff.Threefold | redis-6.0.2/backoff.c:60-63 | a draw keeps the threefold bound even if the multiplication wraps around |
| Backoff.ExponentialGrows | redis-6.0.2/backoff.c:40-44 | exponential delays do not shrink if the largest term does not wrap around |
| Reconnect.Socket.CheckEof | redis-6.0.2/library.c:323-400 | the connection is replaced, with every re-entry from AUTH, SELECT and ECHO, as Check computes; each attempt sleeps at most the cap, and without re-entries there are at most max_retries |
| Reconnect.Socket.Retry | redis-6.0.2/library.c:358-391 | the retry loop computes Loop from attempt 0 |
| Reconnect.Socket.Connecting | redis-6.0.2/library.c:3058-3175 | an idle stream that answers the ECHO, or a new one, as Connect computes |
| Reconnect.Socket.Exchanging | redis-6.0.2/library.c:3563-3574 | a write checks the connection with retries, and reading the reply without |
| Reconnect.CheckWithin | redis-6.0.2/library.c:323-400 | in any environment each loop makes at most max_retries attempts, each sleeping at most the cap, and each loop costs a failing answer |
| Reconnect.CheckAlone | redis-6.0.2/library.c:353-391 | without re-entries there is one loop, a sleep of at most max_retries times the cap, and a history of this call's draws only |
| Reconnect.BoundedIff | redis-6.0.2/library.c:353-391 | a call sleeps at most max_retries times the cap in every environment if and only if nothing in the loop writes or no delay is possible |
| Reconnect.Unbounded | redis-6.0.2/library.c:353-391 | otherwise some environment makes a call sleep longer than any given time |
| Reconnect.DroppedAuth | redis-6.0.2/library.c:375-378 | one retry, a constant delay, a password, and a connection lost before AUTH: the call sleeps twice the delay, of which usleep keeps 32 bits |

## Left out

- Sockets, TLS, poll, streams and clocks: byte sequences, nondeterministic outcomes and one bit that says whether the time limit is over.
- Routing.Cluster.SendCommand: the number of rounds is bounded by a parameter, because the loop need not end without a time limit; what happens after more rounds than that is covered by taking a larger bound.
- Routing.Cluster.CheckResponse: the counter of redirections does not wrap at 2^64.
- Routing.Cluster.SendPayload: a reconnection is one event of the record, which stands for the retries and the AUTH of Reconnect; one that fails is a refused send. A socket that loses its connection in MULTI mode stays in the set of such sockets, so that it is not seen to reconnect later.
- Redirect.ReadRedirectionInverse: the stored length of a host that was cut is that of the whole host in the source, and is that of the cut one here; node keys are not cut at 1024 bytes or at HOST_NAME_MAX.
- SlotTable.Table.MapSlots: slot numbers are not truncated to short, and nothing is said of the state after a write outside the table; nodes that are freed while a slot still points to them live on in the model, and Valid says when that does not happen. A row with a nil host, which the validation accepts with a null string, has no counterpart.
- SlotCache.InitCache: hosts of a cache are distinct and its entries have at least one range, as every cache made from a slot map has.
- Routing: cluster_send_slot, the splitting of keys over slots, EXEC and DISCARD over several nodes, and subscriptions; the flags READONLY and MULTI of a socket are kept in two sets of the cluster instead of in the socket, and a node stands for its socket.
- RespReader.Stream.GetLine: lines shorter than two bytes have no line end to remove and count as lost.
- RespReader.Stream.BulkReply: bulk lengths below -1 are treated like -1 by both decoders.
- Pipeline.RedisSock.Read: a lost connection gives no reply and is not re-established within a transaction or a pipeline.
- RespWriter.SmartString.Format: integers, floating-point numbers and serialized values are given as their text; generic_sort_cmd builds its argument count on its own and is not modelled.
- Scatter.Associate: a distributor's position is below the number of nodes; ScaledInRange says when that is so without a distributor.
- NodeLookup.Crc: ext/standard/crc32.h is not part of this model; of its table only IsCrcTable is used.
- Migration.RedisArray.ForwardCall: moving a key is one step, without expiry times; the index of keys and MULTI on an array are not modelled.
- Pool.ConnectionPool.Connect: the pool key of a socket stays the same while it holds a stream, and a new stream is never shared with another socket; connections that the retries of a failed ECHO write take from the pool themselves are not followed.
- Lz4Frame.Uncompress: the LZ4 library is a pair of functions with the inverse law assumed, and memory is little-endian; LZF and ZSTD are not modelled.
- Backoff.RedisBackoff.Compute: the random generator returns any number within its bounds; algorithm, base and cap do not change after the first delay.
- Reconnect.Socket.CheckEof: PIPELINE mode and the reply callbacks that a disconnection frees are not part of it, and the several lines of an answer to AUTH and ECHO count as one.
- Authentication, scripts, SCAN, Sentinel, sessions, the per-command argument checks of redis.c and all configuration: no further hard property.
- The serializers and the Laravel application around the client.
