# A verified model of the replicated key-value store

The repository is a small distributed hash table over UDP: servers keep a chained hash table and
answer datagrams, clients map a key to N servers on a consistent-hashing ring, put to all of them
and wait for W acknowledgements, and get from all of them until R replies agree. This project models
the final version, `done/`, in Dafny 4.11 and proves what its parts guarantee, up to whole runs of
the system. `dafny verify dfyconfig.toml` checks everything.

## How it is laid out

| file | what it holds |
|---|---|
| `CStrings.dfy` | bytes, C strings, buffer scans and copies, flattening |
| `TableSpec.dfy`, `HashTable.dfy` | the chained hash table: rows and the map they mean; linked buckets changed in place |
| `DumpFormat.dfy`, `DumpProtocol.dfy`, `DumpTheory.dfy` | the dump wire format as functions; the packing and reading loops on buffers; round trip and optimality |
| `Nodes.dfy`, `RingTheory.dfy`, `Ring.dfy` | digest order and digest input; lookups as functions and their laws; the node list, sorting, lookup loops |
| `Requests.dfy`, `ServerSpec.dfy`, `Server.dfy` | request encodings and classification; the server as a map; the server loop |
| `ReplySpec.dfy`, `Network.dfy` | the meaning of replies; `increment_and_get`, `network_get`, `network_put` |
| `Cluster.dfy`, `Quorum.dfy`, `StaleRead.dfy` | clients, servers and datagrams as a step relation; quorum intersection over runs; its converse |
| `Args.dfy` | option parsing |

Code that changes state is a class or a method with loops (`HTable`, `NodeList`, `StoreServer`, the
dump loops, get, put, option parsing), proved against functions and relations on values; the laws are
lemmas about those. The same relation `ServerStep` is what the server method guarantees and what a
server does in `Cluster`, and what the client methods guarantee is what a client call may do there.

## Main results

- Dump round trip, with its exact condition (`DumpRoundTrip`). If every record fits the buffer and
  there are fewer than 2^32 of them, the reader rebuilds exactly the listing and stops after exactly
  the last datagram if and only if every key is non-empty, the count arrives, and either the spare
  byte after the reader's buffer is 0 or no datagram fills the whole capacity. The count arrives when
  there is nothing to send, or the first record fits behind the header; if it does not fit, the flush
  drops the last byte of the count, and the reader still gets everything only if the last datagram
  alone holds more records than the dropped byte was worth.
- When a dump overruns the server's buffer: exactly when some record is longer than the buffer
  (`SendDump`), which in a run means that some stored value was put by a message of `MAX_MSG_SIZE` bytes
  (`OverflowDecidedByPuts`). A key and a value of the documented maximal length do that
  (`LongestPutOverflows`); shorter messages never do (`ShortMessagesAreSafe`).
- Greedy packing is optimal among all ways to cut the listing in order (`GreedyOptimal`).
- Minimal disruption of the ring (`MinimalDisruption`, `RemainingReplicasKept`), for every sorted
  ring, including when the walk wraps, with digests compared by `strncmp`, which is a total preorder
  but not an order (`DigestPreorder`, `DigestsMayTie`).
- The lookup loop ends within one revolution exactly when the ring has enough servers (`WalkEnds`).
- The chained table refines a finite map, whichever allocation fails (`HTable.Add`, `HTable.Get`,
  `HTable.GetContent`), and deleting it frees every separately allocated bucket once (`HTable.Delete`).
- Every first part of an ordinary dump makes the reader fail, and only the whole is a listing
  (`DumpDelivery`, `CutShortDumpFails`).
- The ring is made of exactly the virtual nodes of the server list, each at the digest of its own text
  (`RingInit`, `RingHasVirtualNodes`), and a key goes to the first different servers clockwise from
  its digest (`RingGetNodesForKey`).
- The server loop refines a map server over every finite sequence of messages it can receive, up to
  the first such overrun (`RunServer`); what every kind of message does is said by its bytes
  (`MeaningByShape`, `PingInRun`, `PutInRun`, `GetInRun`, `DumpInRun`), and a get is answered with the
  value stored last under its key, whatever allocation failed before (`GetSeesStoredPut`). A client that reads a dump sees exactly the table, with the exact condition
  (`DumpShowsTable`).
- The exact meaning of get (`GetMeaning`, `NetworkGet`). The counter of a value is one signed `char`:
  incremented past 127 it becomes a huge unsigned number, so 128 equal replies always suffice. A get
  therefore means what it should exactly when R is at most 128 (`CounterBound`), and what it returns
  does not depend on the order of arrival exactly when min(R, 128) is a majority of N
  (`GetOrderIndependence`); with 300 servers a majority R = 200 is not enough
  (`LargeMajorityIsNotEnough`). No reply of a server can overrun the client's receive buffer
  (`RepliesLeaveRoom`, `RepliesEnd`).
- Quorum intersection over runs (`QuorumIntersection`): a get that succeeds after a successful put of
  the same key returns its value, whatever is lost, delayed or reordered, if W + min(R, 128) exceeds
  the larger of the two clients' N, provided the servers that handled the put could store it. For a
  common N the condition on the quorums is also necessary, even when no allocation fails
  (`OverlapDecides`, `StaleScenario`), and without the proviso no quorum is large enough, because a
  server acknowledges what it could not store (`UnstoredPut`). The empty key is different, because a get of it is sent as a
  ping (`EmptyKeyReadsEmpty`).

## Where the code and its documentation differ

- The comment at done/pps-dump-node.c:36 gives the buffer one more byte so that scans stop there, but
  line 43 clears only the bytes before it. The model follows the code: the spare byte is a parameter.
- done/config.h:30-33 limits a key or a value to `MAX_MSG_ELEM_SIZE` bytes; done/network.c:77 and
  158-159 check against `MAX_MSG_SIZE`. The model follows the code.
- A key and a value of the length done/config.h:30-33 allows make a put of `MAX_MSG_SIZE` bytes, but
  their record needs one byte more in the dump buffer of done/pps-launch-server.c:84.
- A put is acknowledged even when the table could not store it (done/pps-launch-server.c:133-134).

## Modelling choices

- A byte is a number below 256; `size_t` is 64 bits wide (it shows only in the hash), and plain
  `char` is signed, as on x86-64.
- SHA1, `inet_pton` and `sscanf("%d")` are function parameters; nothing is assumed about them.
- Sorting is an insertion sort in place of `qsort`; the ring laws hold for every sorted ring.
- Allocation outcomes, received datagrams and timeouts are parameters of the methods.
- A datagram longer than `MAX_MSG_SIZE` (65507 bytes, the most UDP over IPv4 carries) is never sent.
- Leaving a buffer is an explicit outcome of the dump writer (`Overflow`), the dump reader and the
  get (`Overrun`); nothing more is said about the program after that.

## Model

| member | source | states |
|---|---|---|
| `DumpProtocol.SendDump` | done/pps-launch-server.c:83-113 | the packing loop sends exactly the datagrams `Dump` describes through a buffer it never leaves, unless a record is longer than the buffer: exactly then it overflows, after the datagrams of the records before it |
| `DumpProtocol.PackRecord` | done/pps-launch-server.c:96-111 | one turn of the loop: a flush exactly when the record does not fit behind what is there, then the record, unless it does not fit at all |
| `DumpProtocol.AppendRecord` | done/pps-launch-server.c:108-111 | the two copies extend the used part of the buffer by exactly one record |
| `DumpProtocol.Receive` | done/pps-dump-node.c:43-44 | after a receive the buffer holds the datagram, zeros, and the untouched spare byte |
| `DumpProtocol.ReadRecord` | done/pps-dump-node.c:66-71 | one turn of the string scans finds the next record, an empty key, or the end of the buffer |
| `DumpTheory.NextRecordMeaning` | done/pps-dump-node.c:66-71 | the scans find a record exactly when a non-empty key and a value both end within the buffer, and an empty key exactly at a NUL |
| `DumpProtocol.ReadRecords` | done/pps-dump-node.c:66-93 | the inner loop collects all records up to the first empty key, or reports a scan that left the buffer |
| `DumpProtocol.ReadDump` | done/pps-dump-node.c:40-94 | the reading loop yields what `Read` says for every sequence of arriving datagrams and every spare byte |
| `DumpTheory.DumpRoundTrip` | done/pps-dump-node.c:36-94 | the listing is rebuilt, with no datagram left over, if and only if keys are non-empty, the count arrives and the spare byte is harmless |
| `DumpTheory.DumpRoundTripWhenRecordsFit` | done/pps-launch-server.c:79-117 | with non-empty keys, records that fit behind the header and a clear spare byte, every listing survives the trip |
| `DumpTheory.DumpGroups` | done/pps-launch-server.c:95-113 | the datagrams are the greedy groups of the listing in order; the first group is empty only for an empty listing or a first record that does not fit behind the header |
| `DumpTheory.ReadGroups` | done/pps-dump-node.c:42-94 | the reader consumes all groups exactly when the announced count is reached in the last group and not before |
| `DumpFormat.HeaderBytes` | done/pps-launch-server.c:91-92 | byte i of the header is the count divided by 256^(3-i), modulo 256: the most significant byte comes first |
| `DumpTheory.CountHeader` | done/pps-launch-server.c:91-92 | the four header bytes read back as the count, and as the count rounded down to a multiple of 256 when the last byte is lost |
| `DumpTheory.EmptyKeyIsLost` | done/pps-dump-node.c:66-66 | a pair under the empty key makes the reader wait in vain |
| `DumpTheory.HeaderIsCutOff` | done/pps-launch-server.c:100-104 | a record that fits the buffer but not behind the header makes the reader stop at once with an empty listing |
| `DumpTheory.SpareByteIsRead` | done/pps-dump-node.c:37-43 | a record that exactly fills the first datagram makes the reader leave its buffer unless the spare byte is 0 |
| `DumpTheory.DumpDelivery` | done/pps-dump-node.c:40-94 | of any first k datagrams of a dump whose count arrives: an overrun exactly when one of them fills the capacity and the spare byte is not 0, otherwise a failure while any is missing and the listing when none is |
| `DumpTheory.CutShortDumpFails` | done/pps-dump-node.c:44-51 | an ordinary dump of which the last datagrams, or all of them, are missing makes the reader fail |
| `DumpTheory.OverflowGroups` | done/pps-launch-server.c:95-111 | what is sent before an overflow: the greedy groups of the records before the first too long one, behind a header announcing all records |
| `DumpTheory.ReadIsPrefix` | done/pps-dump-node.c:40-94 | whatever is listed has named keys and, if all keys are named, is a leading part of the listing |
| `DumpTheory.DatagramsFit` | done/pps-launch-server.c:100-113 | every datagram has at most capacity minus one bytes, also those sent before an overflow |
| `DumpTheory.GreedyOptimal` | done/pps-launch-server.c:95-113 | no in-order split of the same listing with the same header and capacity has fewer parts |
| `HashTables.HashFunction` | done/hashtable.c:103-122 | the byte loop computes the 64-bit hash reduced to a bucket index |
| `HashTables.AddBucket` | done/hashtable.c:26-51 | fills the blank bucket and adds a new blank one, or leaves the bucket blank when any allocation fails |
| `HashTables.BlankBuckets` | done/hashtable.c:127-127 | every bucket of a new table is a chain with only a blank end |
| `HashTables.HTable.Construct` | done/hashtable.c:124-133 | a new table is the empty map, or has no buckets when the allocation fails |
| `HashTables.HTable.Find` | done/hashtable.c:58-75 | the walk ends at the bucket of the key if it is stored and at the blank end of its chain if not |
| `HashTables.HTable.Get` | done/hashtable.c:79-101 | returns the value of the key in the map, or nothing |
| `HashTables.HTable.Add` | done/hashtable.c:53-77 | the map changes at the key only, exactly when the needed allocations succeed; otherwise it is unchanged and the table stays usable |
| `HashTables.HTable.Store` | done/hashtable.c:59-76 | the same for a table that has buckets |
| `HashTables.HTable.Overwrite` | done/hashtable.c:61-71 | replacing the value in place changes the map at that key only |
| `HashTables.HTable.Append` | done/hashtable.c:75-76 | a new key goes to the blank end of its chain, all or nothing |
| `HashTables.HTable.GetContent` | done/hashtable.c:182-206 | the list has every stored pair once, no repeated key, and the length of the map |
| `HashTables.HTable.EachTailOnce` | done/hashtable.c:139-150 | the buckets after the heads of all chains are pairwise different and belong to the table |
| `HashTables.HTable.Delete` | done/hashtable.c:152-164 | frees every bucket after a head once, and no head, and leaves a table without buckets |
| `HashTables.FreeBucket` | done/hashtable.c:139-150 | frees exactly the buckets after the head, in order |
| `TableSpec.HashOfOneByte` | done/hashtable.c:103-122 | the bucket of "a" among 256 and among 1000 |
| `TableSpec.HashOfTwoBytes` | done/hashtable.c:103-122 | the buckets of "ba", which among 256 shares that of "a" |
| `TableSpec.HashOfFiveBytes` | done/hashtable.c:103-122 | the buckets of "hello", with wrap-around at 64 bits |
| `TableSpec.HashOfHighBytes` | done/hashtable.c:111-111 | the buckets of two bytes above 127, which count as unsigned |
| `TableSpec.ReplaceInRow` | done/hashtable.c:61-71 | overwriting one value keeps keys in place and unique and updates the map there |
| `TableSpec.AppendToRow` | done/hashtable.c:75-76 | appending a new key to its row keeps keys in place and unique and extends the map |
| `TableSpec.FlattenLists` | done/hashtable.c:189-203 | the rows one after the other list the map, each association once |
| `TableSpec.ListingLength` | done/hashtable.c:189-203 | such a list is as long as the map |
| `Nodes.StrNCmpMeaning` | done/node.c:48-53 | two digests tie exactly when they agree up to their first NUL, and otherwise compare as the strings they start with, lexicographically |
| `Nodes.StrNCmpTransitive` | done/node.c:48-53 | the comparison is transitive, strictly if either step is strict |
| `Nodes.DigestPreorder` | done/node.c:48-53 | comparing digests is a total preorder |
| `Nodes.DigestsMayTie` | done/node.c:48-53 | two different digests the comparison cannot tell apart |
| `Nodes.SameServer` | done/node.c:55-61 | the address comparison is 0 exactly for the same IP and port |
| `Nodes.DecimalMeaning` | done/node.c:18-20 | a number is printed as digits without a leading zero whose positional value is the number |
| `Nodes.DecimalUnique` | done/node.c:18-20 | it has only one such digit string |
| `Nodes.DigestInputInjective` | done/node.c:18-24 | a text of address, blank, port digits, blank, number digits determines all three when addresses have no blank |
| `Nodes.NodeInitMeaning` | done/node.c:13-40 | the node made is the one and only with the parsed address, the port in network byte order, and the SHA1 digest of that text; none is made exactly when the address does not parse |
| `RingTheory.StartMeaning` | done/ring.c:45-53 | the start of a walk is the first node whose digest, as a string, is not less than the key's, or 0 when all are less |
| `RingTheory.StartIsLowerBound` | done/ring.c:45-53 | on a ring in digest order the nodes before the start are exactly those with a digest string less than the key's, unless all are less and the start is 0 |
| `RingTheory.SortedMeaning` | done/node.c:48-53 | sorted by the node comparison means that no node comes after one with a greater digest string |
| `RingTheory.FreshServers` | done/ring.c:80-86 | the nodes kept on a walk have pairwise different servers and cover every server met |
| `RingTheory.FreshAreFirstMeetings` | done/ring.c:80-86 | the nodes kept are those at the first meeting with each server, in the order of the walk |
| `RingTheory.WalkEnds` | done/ring.c:80-86 | the walk finds the wanted number of servers within one revolution if the ring has them, and never if it has not |
| `RingTheory.LookupDistinct` | done/ring.c:71-88 | exactly the wanted number of nodes, of different servers of the ring; asking for more only appends |
| `RingTheory.LookupMeaning` | done/ring.c:71-88 | a lookup is the first meetings with the wanted number of different servers, clockwise from the first node whose digest string is not less than the key's |
| `RingTheory.FreshWithout` | done/ring.c:80-86 | skipping repeated servers and dropping one server commute |
| `RingTheory.StartWithout` | done/ring.c:45-53 | where the walk starts once the nodes of one server are gone, with the wrap to 0 |
| `RingTheory.RevolutionWithout` | done/ring.c:45-53 | one revolution of the ring without a server is the old revolution without its nodes |
| `RingTheory.MinimalDisruption` | done/ring.c:71-88 | a lookup without a server is the old lookup for one node more, that server dropped, cut to size |
| `RingTheory.RemainingReplicasKept` | done/ring.c:71-88 | servers that stay keep their keys, and keys the leaving server did not hold keep all their nodes |
| `Ring.NodeList.Add` | done/node_list.c:49-75 | in a reallocated array the list grows by the node at its end; when either allocation fails the nodes stay as they were |
| `Ring.NodeList.Sort` | done/node_list.c:77-80 | the array is reordered in place: by digest string, with the same nodes |
| `Ring.NodeList.Insert` | done/node_list.c:77-80 | one node moves down to its place among the sorted ones before it |
| `Ring.GetNodes` | done/node_list.c:16-47 | the virtual nodes 1..count of every line in order, each with its address, port and digest, or nothing exactly when one cannot be made or some allocation fails |
| `Ring.AddVirtualNodes` | done/node_list.c:32-40 | the nodes of one line are appended, or a failure exactly when its address does not parse or memory runs out |
| `Ring.AllNodesCount` | done/node_list.c:29-42 | there are as many nodes as the counts add up to |
| `Ring.AllNodesMeaning` | done/node_list.c:29-42 | virtual node id of a line stands behind all nodes of the lines before and the lower numbers of its own |
| `Ring.RingHasVirtualNodes` | done/ring.c:19-32 | a ring that was set up has every virtual node of every line and no other, each at the digest of its text and with the address of its line |
| `Ring.RingInit` | done/ring.c:19-32 | the ring becomes a permutation in digest order of the virtual nodes of all lines, or keeps its nodes exactly when the list cannot be built |
| `Ring.IndexOfFirstNode` | done/ring.c:45-53 | the search loop returns the first node whose digest string is not less than the key's, or 0 |
| `Ring.AlreadyPresentInList` | done/ring.c:61-69 | says whether some node of the list has the same server |
| `Ring.RingGetNodesForKey` | done/ring.c:71-88 | on a ring with enough servers the loop ends within one revolution with the first meetings with the wanted number of different servers clockwise from the key; no list when it cannot be allocated |
| `Requests.RequestRoundTrip` | done/pps-launch-server.c:58-135 | the server understands an encoded request as it was meant if and only if a get has a key and a put a key or a value |
| `Requests.EncodingsDiffer` | done/network.c:141-152 | no two such requests are encoded alike |
| `Requests.MeaningByShape` | done/pps-launch-server.c:58-135 | for every message, by its bytes: when it is a ping, a dump request, a get of which key, a put of which pair |
| `Requests.MemChrNul` | done/pps-launch-server.c:59-59 | the first NUL of the message, or none |
| `Requests.Classify` | done/pps-launch-server.c:58-135 | the branches on the receive buffer decide the meaning of every message |
| `ServerSpec.StepOverflows` | done/pps-launch-server.c:79-113 | a turn overruns the dump buffer exactly when it dumps, has a buffer, and some stored record is longer than it |
| `ServerSpec.FitDecidedByPuts` | done/pps-launch-server.c:131-135 | after any run from an empty table, whatever allocation fails, every record fits the dump buffer exactly when no key's stored value was put by a message of MAX_MSG_SIZE bytes |
| `ServerSpec.OverflowDecidedByPuts` | done/pps-launch-server.c:44-137 | in any such run a turn overruns the buffer exactly when it dumps while some key's stored value was put by such a message |
| `ServerSpec.LongestPutOverflows` | done/config.h:30-33 | a key and a value of the documented maximal length, and a run in which putting and dumping them overruns the buffer |
| `ServerSpec.ShortMessagesAreSafe` | done/pps-launch-server.c:44-137 | while all messages are shorter than MAX_MSG_SIZE no turn overruns the buffer, whatever allocation fails |
| `ServerSpec.RepliesLeaveRoom` | done/pps-launch-server.c:76-135 | in any run from an empty table every datagram sent is shorter than MAX_MSG_SIZE, whatever allocation fails |
| `ServerSpec.PingInRun` | done/pps-launch-server.c:76-78 | in every run the empty message is answered with exactly one empty datagram and leaves the table |
| `ServerSpec.PutInRun` | done/pps-launch-server.c:131-135 | in every run a put is acknowledged with exactly one empty datagram, and stored exactly when the memory it needs is found |
| `ServerSpec.GetInRun` | done/pps-launch-server.c:119-130 | in every run a get is answered with exactly one datagram, the stored value or one NUL, and leaves the table |
| `ServerSpec.DumpInRun` | done/pps-launch-server.c:79-89 | in every run a dump leaves the table, and without a buffer nothing is sent |
| `ServerSpec.TableIsStoredPuts` | done/pps-launch-server.c:44-137 | after any run from an empty table, whatever allocation fails, each key has the value of the last put of it that found memory |
| `ServerSpec.TableIsLastPuts` | done/pps-launch-server.c:44-137 | if all additions find memory, that is the last put |
| `ServerSpec.GetSeesStoredPut` | done/pps-launch-server.c:119-130 | a get anywhere in a run is answered with the value stored last under its key, or with one NUL when there is none or it cannot be copied |
| `ServerSpec.GetSeesLastPut` | done/pps-launch-server.c:119-130 | if all additions find memory, that is the last put of its key |
| `ServerSpec.DumpShowsTable` | done/pps-dump-node.c:31-94 | a dump is sent exactly when all records fit the buffer, and then shows the client exactly the table if and only if no key is empty, the count arrives and the spare byte is harmless |
| `ServerSpec.DumpShowsOrdinaryTable` | done/pps-dump-node.c:31-94 | with non-empty keys, records that fit behind the header and a clear spare byte, the client sees exactly the table |
| `Server.StoreServer.Receive` | done/pps-launch-server.c:46-49 | the buffer holds the message followed by zeros |
| `Server.StoreServer.Serve` | done/pps-launch-server.c:44-137 | one turn of the loop, for every message the buffer can hold, changes the table and replies as the map server does, whatever allocation fails |
| `Server.RunServer` | done/pps-launch-server.c:36-137 | the loop over any finite sequence of messages is a run of the map server from the empty map, ended early only by an overrun of the dump buffer |
| `ReplySpec.ProgressFromRun` | done/network.c:107-126 | the state of a get depends only on the leading run of good replies and the number received |
| `ReplySpec.GetMeaning` | done/network.c:107-131 | v is returned exactly when it is the first value to occur r times within the leading run of good replies; otherwise get fails |
| `ReplySpec.ProgressSticks` | done/network.c:107-126 | once decided, a get does not change its result |
| `ReplySpec.CounterBound` | done/network.c:51-54 | the one-byte counter gives the right result on all replies exactly when r is at most 128 |
| `ReplySpec.FoundOccurs` | done/network.c:113-121 | with all replies good, a returned value has r copies, and a value with r copies makes get succeed |
| `ReplySpec.OrderIndependence` | done/network.c:51-126 | with the one-byte counter, the state of a get is the same for every order of the same good replies exactly when min(r, 128) is a majority |
| `ReplySpec.ProgressMay` | done/network.c:107-126 | the state the receive loop computes without failed allocations is among those allowed when allocations may fail |
| `ReplySpec.PutMeaning` | done/network.c:188-196 | a put has enough acknowledgements exactly when its first w receives all brought a datagram |
| `Network.IncrementAndGet` | done/network.c:47-59 | returns the incremented one-byte counter as an unsigned number and stores it if the allocations allow |
| `Network.TallyStep` | done/network.c:47-59 | a counter is never ahead of the occurrences, equals them when no allocation failed, and reaches r exactly at min(r, 128) |
| `Network.TallyCountsOccurrences` | done/network.c:47-59 | with successful allocations and at most 127 occurrences the count returned is the number of occurrences and all other counts stay |
| `Network.ReadReply` | done/network.c:108-112 | tells good replies from timeouts and one-byte refusals and yields the text of the reply, unless the reply fills the buffer without a NUL |
| `Network.AwaitReplies` | done/network.c:107-126 | the receive loop follows `Progress` when allocations succeed; when they fail it still stops at the first bad reply and never returns an unsupported value |
| `Network.GetResult` | done/network.c:107-131 | with successful allocations exactly the first value to occur min(R, 128) times in the good run, or a network error, or want of memory when that value cannot be copied out, and an overrun exactly when a reply without an end arrives before that; under any allocation failure never a value without that many copies |
| `Network.NetworkGet` | done/network.c:73-132 | the key goes once to each of the N servers nearest to it; every early error; the result as for `GetResult` |
| `Network.GetOrderIndependence` | done/network.c:107-131 | what a get returns is the same for every order of the same good replies exactly when min(R, 128) is a majority of N |
| `Network.LargeMajorityIsNotEnough` | done/network.c:51-54 | with 300 servers and R = 200, a majority, the order matters |
| `Network.CreateCatPacket` | done/network.c:141-152 | the packet is key, NUL, value |
| `Network.AwaitAcks` | done/network.c:188-196 | counts acknowledgements up to W, ending at the first timeout |
| `Network.NetworkPut` | done/network.c:154-205 | key, NUL and value go once to each of the N servers nearest to the key, and the put succeeds exactly when the first W receives brought a datagram |
| `Cluster.PutStatusExact` | done/network.c:188-202 | a put in the system has the status its receive loop computes |
| `Cluster.GetStatusAllowed` | done/network.c:107-131 | the status the receive loop of a get computes is allowed in the system |
| `Cluster.ShortKept` | done/pps-launch-server.c:44-137 | no step makes a stored value or a reply reach the size of the client's receive buffer |
| `Cluster.SendsAreBroadcast` | done/network.c:103-105 | a call puts in flight exactly the datagrams its client sends |
| `Cluster.CallsSend` | done/network.c:103-105 | a get puts in flight its key, and a put its key, NUL and value, once for each of the servers nearest to the key |
| `Cluster.OnceKept` | done/network.c:103-112 | for each call and server the request, its reply in flight and its received reply exclude each other and occur once |
| `Quorum.PutHoldsKept` | done/pps-launch-server.c:131-135 | without another put of the key, every server that answered a put stores its value, step by step |
| `Quorum.PutHoldsAlways` | done/network.c:182-202 | the same along every run |
| `Quorum.GetHearsAlways` | done/pps-launch-server.c:119-130 | along every run, what such servers tell a later get is the value or a refusal |
| `Quorum.VotersCount` | done/network.c:113-114 | the servers whose reply is a value are as many as its occurrences |
| `Quorum.ReplicasNested` | done/ring.c:71-88 | the replicas for a smaller N are among those for a larger one |
| `Quorum.RepliesEnd` | done/network.c:109-113 | in no run does a client receive a reply that does not end within its buffer |
| `Quorum.QuorumIntersection` | done/network.c:73-205 | in every run a get that succeeds after a successful put that was stored returns its value if the quorums overlap, even for different N |
| `Quorum.EmptyKeyReadsEmpty` | done/network.c:103-105 | a get of the empty key that succeeds returns the empty value |
| `StaleRead.StaleScenario` | done/network.c:73-205 | with quorums that need not overlap, a run in which the put is stored, the get always has the status its receive loop computes, and it returns the old value |
| `StaleRead.UnstoredPut` | done/pps-launch-server.c:133-134 | with any quorums, a run in which acknowledged puts were not stored and the get returns the old value |
| `StaleRead.OverlapDecides` | done/network.c:73-205 | reads see stored writes in all runs if and only if W + min(R, 128) exceeds N, and likewise in the runs in which no allocation of the getting client fails |
| `Args.GoFwdAndParseNumber` | done/args.c:26-40 | the number is what `sscanf` reads from the argument behind the option, if there is one and it is positive |
| `Args.NextOption` | done/args.c:57-91 | an option is read exactly if it is new and a positive number follows; otherwise the list is not acceptable |
| `Args.ParseOptArgs` | done/args.c:42-118 | succeeds exactly on the acceptable lists; then the number read behind -n is N, behind -r is R and behind -w is W, those not given come from 3, 2 and 2, R and W lie between 1 and N, and the rest begins after an optional -- |
| `Args.DefaultValues` | done/args.c:14-16 | with no option at all, N is 3 and R and W are 2 |
| `Args.DefaultQuorumsOverlap` | done/args.c:93-115 | with neither W nor R given, the quorums overlap exactly for N up to 3 |

## Left out

- Sockets, binding, timeouts as durations, prompts and printing: datagrams arrive or do not.
- The endless server loop and its skipped turn on a receive error: any finite sequence of messages stands for it.
- The inside of SHA1, `inet_pton`, `sscanf` and `qsort`.
- Reading `servers.txt` and counting its lines: the model starts from the parsed entries, and lookups ask for a ring with enough different servers.
- Allocation failure in `copy_pair`, `get_Htable_content`, `node_init`, `parse_opt_args`, the server's first `construct_Htable`, and the `realloc` and `strdup` calls of the dump reader (done/pps-dump-node.c:73-90).
- Ring.RingGetNodesForKey: additions to the result list are assumed to find memory; the code ignores a failed one and walks on.
- What a program does after it has left a buffer; in the system model a server whose dump overruns its buffer stops.
- Duplicated or forged datagrams: the network only loses, delays and reorders.
- Liveness of get: it stops at the first refusal or timeout, so R matching replicas do not always suffice.
- Addresses that name no server of the ring: nothing ever answers there.
- The clients `pps-client-cat.c`, `pps-client-substr.c`, `pps-client-find.c`, `pps-list-nodes.c` and the other `main` functions around get and put: they would add only easy members.
- `network_del` and `del_Htable_key` are declared but not defined in the repository.
- The release of node digests and addresses, and of strings in buckets; only the buckets freed by `delete_Htable_and_content` are modelled.
