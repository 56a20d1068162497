# rustTorrent: a verified model

This project models, in Dafny, the parts of rustTorrent in which a mistake would be hardest to
see: the Kademlia routing table and lookups of its DHT node, the matching of DHT responses to
requests, the store of announced peers, the bencode and peer-wire codecs, and the arithmetic
that cuts a torrent's content into pieces, chunks and files. It proves what these parts promise,
for every input and every run. `dafny verify dfyconfig.toml` checks it.

| file | models |
|---|---|
| `Numbers.dfy`, `Octets.dfy`, `Net.dfy`, `Sorting.dfy` | shared arithmetic, bytes and their order, addresses and instants, the stable sort |
| `Ids.dfy` | 20-byte ids as 160-bit numbers: order, bits, XOR distance, splitting a range |
| `BucketTrees.dfy`, `RoutingTables.dfy`, `NodeHistories.dfy` | the bucket tree kept in a growing array, insertion with splits, the leaf iterator, the routing table, and what it makes of its nodes over a run |
| `RequestEngine.dfy` | requests, announces, responses, timeouts and failed sends as steps of a state machine, and the shared state that takes them |
| `UsefulLists.dfy`, `LookupRuns.dfy`, `Descents.dfy`, `LookupAnswers.dfy`, `Lookup.dfy` | the bounded list of useful nodes, a lookup as a run of rounds, why such runs end, which nodes they ask, and the lookup's loop |
| `BencodeGrammar.dfy`, `Bencode.dfy`, `BencodeErrors.dfy`, `ErrorContexts.dfy`, `BencodeCodec.dfy` | the grammar of BEP 3, the format as functions, what errors mean and the keys they are reported with, and the reader and writer that work on a buffer |
| `WireFormats.dfy`, `PeerWire.dfy`, `PeerCodec.dfy` | the messages byte by byte, as functions, and their reader over two slices and writer into an array |
| `Geometry.dfy`, `Files.dfy`, `FileProgress.dfy` | pieces and chunks, files over pieces, and the per-file byte counts |
| `PeerLists.dfy`, `PeerStores.dfy`, `StoreRuns.dfy` | what a garbage collection keeps, the store of tokens and peers, and its runs |

Code that works on values is modelled by functions; code that updates fields, buffers or arrays
by classes and methods whose contracts tie the new state to those functions. Times, random
bytes, what the network answers and the order in which tasks run or hash maps are walked are
parameters or arbitrary choices, so each statement holds for all of them.

Where the code and its description part ways, the model follows the code:

- The comment on the store's garbage collection says that the oldest peers are evicted first.
  The code drains whole info hashes in the order of their oldest peer.
  `PeerStores.NewerPeerEvicted` is a store from which a newer peer goes while an older one stays;
  `PeerLists.OldestGoFirstNowIff` says when one eviction takes the oldest, and
  `PeerLists.OldestGoFirstIff` when every eviction does. Only a store read back from disk can be
  over its cap: `PeerStores.PeerStore.GarbageCollectPeers` evicts nothing from one that was not.
- When a piece completes, the per-file byte counts are updated by a loop that stops at the first
  file whose piece range does not hold the piece. An empty file has an empty range, so the files
  after it that share the piece are left behind. `FileProgress.EmptyFileInterrupts` is such a
  torrent; `FileProgress.Download` says exactly when the counts of a download come out right.
- The routing table's own `size` also grows when a bad node is replaced; the tree's does not.
- A transaction id is drawn from 65,536 values without a look at those in use. In
  `RequestEngine.WrapAround` two requests meet on one key, and in `RequestEngine.LateCleanUp` a
  clean-up takes another request's entry; `RequestEngine.StepHarmIff` says exactly which steps break
  the engine's invariant so.
- A reply is matched by transaction id and address alone, and nothing bounds how late it may come. In
  `RequestEngine.LateReply` the reply to an announce completes another request, although no message
  waits and no request lives that long; `RequestEngine.ReplyHarmIff` says exactly which replies do so.
- The bencode reader takes more than BEP 3 allows: numbers with leading zeros, a plus sign, or a
  sign and no digits, which is 0 (`BencodeGrammar.SignAlone`), and keys out of order or repeated.
  `BencodeGrammar.ReadsIff` is the grammar of exactly what it takes, and `BencodeGrammar.PrintsIff`
  says that the writer keeps to BEP 3.
- The keys that an error in a dictionary is reported with can be wrong once a value nested more
  than 255 keys deep has been read before it. `ErrorContexts.KeyLost` has inputs that lose their only
  key; `ErrorContexts.ReportRightIff` and `ErrorContexts.InputsRightIff` say exactly when.
- With 2^32 chunks the range of the last piece's chunks comes out empty, as in
  `Geometry.LastRangeEmpty`; `Geometry.ChunkRangesIff` says when ranges are right.

## Model

| member | source | states |
|---|---|---|
| `Ids.LessIsNumeric` | crates/librtbit-core/src/hash_id.rs:7-10 | The byte-wise order of ids is the order of the 160-bit numbers they denote, and no two ids denote the same number. |
| `Ids.BitsOfNumber` | crates/librtbit-core/src/hash_id.rs:41-55 | Reading or writing a bit of the byte array is reading or writing that bit of the number. |
| `Ids.TestBitIsDigit` | crates/librtbit-core/src/hash_id.rs:41-45 | The bit read is the binary digit of that weight. |
| `Ids.WriteBitChangesDigit` | crates/librtbit-core/src/hash_id.rs:47-55 | Writing a bit changes the number by that digit's weight and nothing else. |
| `Ids.ComputeDistance` | crates/librtbit-core/src/hash_id.rs:28-40 | The loop over bytes yields the id that has exactly the bits in which the two differ. |
| `Ids.DistanceLaws` | crates/librtbit-core/src/hash_id.rs:28-40 | XOR distance is symmetric, zero exactly between equal ids, and tells any two other ids apart. |
| `Ids.DistanceBits` | crates/librtbit-core/src/hash_id.rs:28-40 | Each bit of the distance is set exactly if that bit of the two ids differs. |
| `Ids.CloseIff` | crates/librtbit-core/src/hash_id.rs:28-40 | As numbers, two ids are less than 2^k apart exactly if they share all bits but the last k. |
| `Ids.SplitTiles` | crates/librtbit-dht/src/routing_table.rs:143-172 | The split of an aligned range gives two aligned, adjacent halves that make up the range. |
| `Ids.SplitAssertions` | crates/librtbit-dht/src/routing_table.rs:159-170 | The split's three debug assertions hold exactly when the range has at least four ids. |
| `Ids.GenerateRandomId` | crates/librtbit-dht/src/routing_table.rs:132-141 | Whatever the random bytes, the id lies in the bucket's aligned range. |
| `BucketTrees.LeavesTile` | crates/librtbit-dht/src/routing_table.rs:196-202 | From left to right the leaves cover a slot's range without gap or overlap. |
| `BucketTrees.OnlyLeaf` | crates/librtbit-dht/src/routing_table.rs:204-220 | The leaf the descent ends at is the one and only leaf that covers the id. |
| `BucketTrees.StoredAscending` | crates/librtbit-dht/src/routing_table.rs:196-202 | All stored nodes, in the order of the leaves, are in strictly ascending order of id and inside the range. |
| `BucketTrees.LeafHoldsId` | crates/librtbit-dht/src/routing_table.rs:222-240 | A node is in the leaf that covers its id exactly when a scan over all leaves meets it. |
| `BucketTrees.Substitute` | crates/librtbit-dht/src/routing_table.rs:247-366 | Changing or splitting one leaf replaces that leaf's share of all stored nodes and no other. |
| `BucketTrees.FullLeafIsWide` | crates/librtbit-dht/src/routing_table.rs:304-319 | A leaf with eight nodes and an absent ninth id in its range spans at least 16 ids, so splitting it is safe. |
| `BucketTrees.FullLeafSplits` | crates/librtbit-dht/src/routing_table.rs:159-319 | Wherever the loop splits a leaf, the split's three debug assertions hold. |
| `BucketTrees.SplitOk` | crates/librtbit-dht/src/routing_table.rs:317-359 | A split keeps the array a well-formed tree and stores the same nodes in the same order. |
| `BucketTrees.SplitKeepsSpine` | crates/librtbit-dht/src/routing_table.rs:312-364 | Splits stay on the path of the table's own id, each one level deeper than the one before. |
| `BucketTrees.ArrayBound` | crates/librtbit-dht/src/routing_table.rs:247-366 | There are at most 157 splits, so the array has at most 315 slots. |
| `BucketTrees.GoOn` | crates/librtbit-dht/src/routing_table.rs:317-364 | Each further split leaves the loop at the leaf that covers the id, in a strictly narrower range, with all stored nodes unchanged. |
| `BucketTrees.LeavesHoldStored` | crates/librtbit-dht/src/routing_table.rs:196-202 | The nodes met leaf by leaf are the nodes the tree stores. |
| `RoutingTables.BucketTree.constructor` | crates/librtbit-dht/src/routing_table.rs:183-194 | The new tree is valid for any own id and stores nothing. |
| `RoutingTables.BucketTree.GetLeaf` | crates/librtbit-dht/src/routing_table.rs:204-220 | The descent terminates at the leaf that covers the id. |
| `RoutingTables.BucketTree.Split` | crates/librtbit-dht/src/routing_table.rs:317-359 | In place, the leaf becomes an inner node over two new slots that share out its nodes by range. |
| `RoutingTables.BucketTree.AddNode` | crates/librtbit-dht/src/routing_table.rs:242-245 | Added puts just the new node in, ReplacedBad swaps out exactly one bad node, the other results change no stored node; each result comes exactly in its own situation, and the size stays the node count, within the limit. |
| `RoutingTables.BucketTree.InsertIntoLeaf` | crates/librtbit-dht/src/routing_table.rs:247-366 | The loop of splits always ends, with the effect on the stored nodes that its result announces. |
| `RoutingTables.BucketTree.SplitToward` | crates/librtbit-dht/src/routing_table.rs:312-364 | After each split the loop goes on at the leaf of the id, in a strictly narrower range. |
| `RoutingTables.BucketTree.Mark` | crates/librtbit-dht/src/routing_table.rs:222-240 | The node with the id, if stored, is changed where a scan meets it; nothing else is, and its leaf is refreshed when asked. |
| `RoutingTables.BucketTree.Iter` | crates/librtbit-dht/src/routing_table.rs:200-202 | Iterating yields every stored node once, in ascending order. |
| `RoutingTables.BucketTreeIterator.Next` | crates/librtbit-dht/src/routing_table.rs:104-130 | The explicit stack yields the leaves of the recursive traversal one by one and then ends. |
| `RoutingTables.TakenAreBest` | crates/librtbit-dht/src/routing_table.rs:495-511 | However many nodes a caller takes from the front, none left out has a better status, or the same status and a smaller distance. |
| `RoutingTables.RoutingTable.constructor` | crates/librtbit-dht/src/routing_table.rs:482-488 | The new table is valid and empty. |
| `RoutingTables.RoutingTable.AddNode` | crates/librtbit-dht/src/routing_table.rs:521-533 | The tree takes the node as above; the table's own count is the node count plus the number of replacements. Which nodes are bad is the matter of `NodeHistories.ReplacedIff`. |
| `RoutingTables.RoutingTable.MarkOutgoingRequest` | crates/librtbit-dht/src/routing_table.rs:534-541 | Only the node with the id changes, and only its record of requests. |
| `RoutingTables.RoutingTable.MarkResponse` | crates/librtbit-dht/src/routing_table.rs:543-550 | Only the node with the id changes, and only its record of responses and errors; its leaf is refreshed. |
| `RoutingTables.RoutingTable.MarkError` | crates/librtbit-dht/src/routing_table.rs:552-559 | Only the node with the id changes, and only its count of errors. |
| `RoutingTables.RoutingTable.MarkLastQuery` | crates/librtbit-dht/src/routing_table.rs:561-568 | Only the node with the id changes, and only its record of queries. |
| `RoutingTables.RoutingTable.SortedByDistanceFrom` | crates/librtbit-dht/src/routing_table.rs:495-511 | The result holds exactly the stored nodes, better status first and closer nodes first within a status; `NodeHistories.SortedByHistory` says what that order is. |
| `RoutingTables.Run` | crates/librtbit-dht/src/routing_table.rs:479-568 | In any run of additions and marks each operation does to the tree what its result says; at the end leaves tile the id space, nodes ascend, there are at most 315 slots, and the table's own count is the number of nodes plus that of replacements reported. |
| `NodeHistories.StoredIff` | crates/librtbit-dht/src/routing_table.rs:479-568 | After any run a node is stored exactly if it was added and not replaced since, and its record is that of the requests, responses, queries and errors since then. |
| `NodeHistories.StatusIs` | crates/librtbit-dht/src/routing_table.rs:415-450 | A node is bad exactly if it was asked and gave two errors without a response after the first; good exactly if it has answered, has not failed so since, and was heard from within 15 minutes; questionable exactly if it is neither, was heard from more than 15 minutes ago and not asked since. |
| `NodeHistories.ReplacedIff` | crates/librtbit-dht/src/routing_table.rs:247-366 | In any run an addition replaces a node exactly if the id is new and some node in its leaf has failed, by the operations on it; it replaces the failed one with the lowest id. |
| `NodeHistories.HealthyStays` | crates/librtbit-dht/src/routing_table.rs:247-366 | No node that has not failed, and so no good one, is ever replaced. |
| `NodeHistories.SortedByHistory` | crates/librtbit-dht/src/routing_table.rs:495-511 | After any run, of two nodes in the sorted list the first is of a better group by its history (good, questionable, unknown, bad), or of the same and no farther by XOR. |
| `RequestEngine.TidOnTheWire` | crates/librtbit-dht/src/bprotocol.rs:423-430 | The id drawn is 16 bits wide; the two bytes sent read back as it, and no other bytes do. |
| `RequestEngine.EntryIsOwn` | crates/librtbit-dht/src/dht.rs:652-685 | In the window, an entry under a request's transaction id is its own or left over from a cancelled one. |
| `RequestEngine.InsertKeeps` | crates/librtbit-dht/src/dht.rs:652-685 | Registering a request overwrites at most the leftover of a cancelled one. |
| `RequestEngine.InsertHarmIff` | crates/librtbit-dht/src/dht.rs:652-685 | Window or not, registering a request breaks the invariant exactly when another request waits under the same id and address. |
| `RequestEngine.DeliverKeeps` | crates/librtbit-dht/src/dht.rs:801-840 | A response goes to the request registered under its id and address, if any, and disturbs no other entry. |
| `RequestEngine.SendDoneKeeps` | crates/librtbit-dht/src/dht.rs:1063-1069 | A failed send, of a request or an announce, keeps the invariant exactly unless another waiting request has its key. |
| `RequestEngine.LeaveKeeps` | crates/librtbit-dht/src/dht.rs:666-684 | Cleaning up after a timeout or a dead worker keeps the invariant exactly unless another waiting request has its key. |
| `RequestEngine.CancelKeeps` | crates/librtbit-dht/src/dht.rs:273-278 | A request dropped while waiting leaves the others findable. |
| `RequestEngine.NoSenderDropped` | crates/librtbit-dht/src/dht.rs:652-685 | In the window no waiting request sees its sender dropped. |
| `RequestEngine.StepHarmIff` | crates/librtbit-dht/src/dht.rs:652-742 | Window or not, a step of any kind keeps the invariant exactly when it does no harm: no other waiting request has the key that it registers, cleans up or reports a failure under. Whose reply a response is, is the matter of `ReplyHarmIff`. |
| `RequestEngine.WindowIsSafe` | crates/librtbit-dht/src/dht.rs:687-690 | While fewer than 65,536 ids are drawn over the life of a request or message, no step does harm. |
| `RequestEngine.StepKeeps` | crates/librtbit-dht/src/dht.rs:652-742 | Every step of every kind keeps the invariant: entries belong to unanswered requests, waiting requests are findable, answers match, the log holds each outcome once. |
| `RequestEngine.RunKeeps` | crates/librtbit-dht/src/dht.rs:652-742 | So does every state of every run that stays in the window. |
| `RequestEngine.RunHarmIff` | crates/librtbit-dht/src/dht.rs:652-742 | In any run the invariant holds up to a point exactly when no step before it does harm. |
| `RequestEngine.RunBasic` | crates/librtbit-dht/src/dht.rs:652-742 | In every run, in the window or not: each entry of the map is under its owner's key, and each finished request is logged once with its outcome. |
| `RequestEngine.OutcomeIsFinal` | crates/librtbit-dht/src/dht.rs:652-685 | Along every run, in the window or not, a request keeps its address and, once it has one, its outcome. |
| `RequestEngine.InflightKeys` | crates/librtbit-dht/src/dht.rs:652-685 | In every reachable state the map's keys are those of waiting, timed-out or cancelled requests; all waiting ones are among them if no step so far did harm. |
| `RequestEngine.TimedOutIff` | crates/librtbit-dht/src/dht.rs:666-684 | In every run a request ends timed out exactly if it saw its timeout and then cleaned up. |
| `RequestEngine.DhtDeadIff` | crates/librtbit-dht/src/dht.rs:659-684 | It ends with a dead engine exactly if its message could not be handed over or its sender was dropped. |
| `RequestEngine.RepliedIff` | crates/librtbit-dht/src/dht.rs:671-684 | It ends with a reply exactly if it took one from its channel, and is cancelled exactly if it was dropped. |
| `RequestEngine.WrapAround` | crates/librtbit-dht/src/dht.rs:687-742 | A run outside the window: after 65,536 draws a new request takes a waiting one's entry, and its clean-up takes the new one's. |
| `RequestEngine.LateCleanUp` | crates/librtbit-dht/src/dht.rs:678-684 | A run without a harmful insertion: a request that has timed out cleans up late and takes the entry of one that drew its id again. |
| `RequestEngine.ReplyHarmIff` | crates/librtbit-dht/src/dht.rs:801-840 | In any reachable state, the reply to the message of a draw, request or announce, leaves every other request alone exactly unless one waits under its id and address. |
| `RequestEngine.PromptReplyIsSafe` | crates/librtbit-dht/src/dht.rs:801-840 | In the window it does so if fewer than 65,536 ids were drawn since. |
| `RequestEngine.ReplyOrigin` | crates/librtbit-dht/src/dht.rs:801-840 | In every run, a reply in a request's channel came in a receive step at which that request waited under the reply's id and address. |
| `RequestEngine.RepliesOwnIff` | crates/librtbit-dht/src/dht.rs:652-840 | In any run, received replies change only the requests they answer exactly when none arrives while another request waits under its key. |
| `RequestEngine.RepliesAreOwn` | crates/librtbit-dht/src/dht.rs:652-840 | Then each request that finishes with a reply finishes with a reply to itself, never to an announce or another request. |
| `RequestEngine.PromptRepliesAreSafe` | crates/librtbit-dht/src/dht.rs:652-840 | That is so in every run in the window in which each reply comes within 65,536 draws. |
| `RequestEngine.LateReply` | crates/librtbit-dht/src/dht.rs:127-167 | A run in the window, without any harmful step, in which the reply to an announce completes another request. |
| `RequestEngine.DhtState.constructor` | crates/librtbit-dht/src/dht.rs:627-650 | The new state is the start state of the machine. |
| `RequestEngine.DhtState.CreateRequest` | crates/librtbit-dht/src/dht.rs:687-742 | The counter wraps at 16 bits; the id drawn is the number of draws modulo 65,536 and survives the wire. |
| `RequestEngine.DhtState.BeginRequest` | crates/librtbit-dht/src/dht.rs:652-655 | Drawing an id is the machine's draw step. |
| `RequestEngine.DhtState.InsertRequest` | crates/librtbit-dht/src/dht.rs:655-658 | Putting the sender into the map is the machine's insert step. |
| `RequestEngine.DhtState.EnqueueRequest` | crates/librtbit-dht/src/dht.rs:659-670 | Handing over the message, or taking the sender back when the worker is gone, is the machine's enqueue step. |
| `RequestEngine.DhtState.Wake` | crates/librtbit-dht/src/dht.rs:671-684 | Completion, timeout, clean-up, a dropped sender and cancellation are the machine's steps of these names. |
| `RequestEngine.DhtState.SendAnnounce` | crates/librtbit-dht/src/dht.rs:127-167 | An announce draws an id and is sent, but nobody waits for it. |
| `RequestEngine.DhtState.OnReceivedMessage` | crates/librtbit-dht/src/dht.rs:801-840 | A response is the machine's receive step; it is an error exactly for a malformed id or an unknown (id, address). |
| `RequestEngine.DhtState.OnSent` | crates/librtbit-dht/src/dht.rs:1250-1278 | Sending a queued message, and reporting a failure to its request, is the machine's send step. |
| `UsefulLists.UsefulnessIsOrder` | crates/librtbit-dht/src/dht.rs:579-592 | The sort key of the useful nodes is a total order on them. |
| `UsefulLists.InOrderIff` | crates/librtbit-dht/src/dht.rs:579-592 | The list is sorted exactly if no node comes after one that is less useful: has not returned peers, or else has not answered, or else is farther by XOR, or else answered earlier. |
| `UsefulLists.DropLast` | crates/librtbit-dht/src/dht.rs:579-600 | In a full list the node that goes is one no other is worse than, and the newcomer is asked exactly if it is not that one. |
| `UsefulLists.AdmitIs` | crates/librtbit-dht/src/dht.rs:570-600 | A new node joins the list in order of usefulness, the least useful one goes if it is too long, and the node is asked exactly if it survives. |
| `UsefulLists.ChooseIs` | crates/librtbit-dht/src/dht.rs:484-516 | An answer's nodes are looked at in order, those of the other family passed over; each is asked exactly if it is new and survives, or known and last asked over 60 seconds ago, and not too deep. The items are just those nodes, in order, one level deeper. |
| `UsefulLists.SecondIs` | crates/librtbit-dht/src/dht.rs:470-517 | That is what a response without peers leads to; any other answer leads to nothing. |
| `UsefulLists.FirstMarks` | crates/librtbit-dht/src/dht.rs:450-468 | The first answer gives its node this time, no errors, and whether there were peers; none changes nothing. |
| `UsefulLists.FailureMarks` | crates/librtbit-dht/src/dht.rs:470-483 | If the second answer does not come, the node has one error more. |
| `UsefulLists.ChooseKeeps` | crates/librtbit-dht/src/dht.rs:484-516 | Whatever nodes an answer names, the list keeps distinct ids and its limit, and the items are one level deeper and of the same address family. |
| `UsefulLists.RulesSane` | crates/librtbit-dht/src/dht.rs:450-601 | So do all answers: they keep the list in order and lead deeper only, which is what a run needs. |
| `Lookup.RecursiveRequest.ShouldRequestNode` | crates/librtbit-dht/src/dht.rs:551-601 | Too deep: no. Known: only after a minute. New: exactly if it survives the sorted eviction. The list keeps distinct ids and its limit. |
| `Lookup.RecursiveRequest.MarkNodeResponded` | crates/librtbit-dht/src/dht.rs:530-549 | The first node with the address has this time as its last response, no errors, and whether it returned peers; no other node changes. |
| `Lookup.RecursiveRequest.MarkNodeError` | crates/librtbit-dht/src/dht.rs:519-528 | The first node with the address has one error more and is otherwise the same; no other node changes. |
| `Lookup.RecursiveRequest.NextItems` | crates/librtbit-dht/src/dht.rs:484-516 | The items are exactly the nodes worth asking, as `ChooseIs` has it. |
| `Lookup.RecursiveRequest.FinishRequest` | crates/librtbit-dht/src/dht.rs:470-517 | It succeeds exactly on a response without peers, and then leads to exactly the nodes worth asking; no response counts as the node's error, and any other answer leaves the list alone. |
| `LookupRuns.RoundLowers` | crates/librtbit-dht/src/dht.rs:292-366 | A round lowers the number of answers to come at the depth it works at and leaves those above alone. |
| `LookupRuns.Terminates` | crates/librtbit-dht/src/dht.rs:292-366 | Every lookup comes to an end, whatever the network answers, in whatever order, and however deep it may go. |
| `LookupRuns.RunKeeps` | crates/librtbit-dht/src/dht.rs:292-366 | After any number of rounds: what was issued or is queued is the initial requests and the consequences of the answers, each issued request is in progress or has finished once, the list is in order, depths and address families are kept. |
| `LookupRuns.IdleAccounts` | crates/librtbit-dht/src/dht.rs:292-366 | When nothing is left, every request issued has finished exactly once. |
| `Descents.Ends` | crates/librtbit-dht/src/dht.rs:292-366 | A loop ends if every round lowers the load of some level and leaves the levels before it alone, for any number of levels. |
| `Lookup.AskUntilIdle` | crates/librtbit-dht/src/dht.rs:292-366 | The loop takes the rounds of the run and stops exactly when nothing is queued or in progress. |
| `Lookup.FindNode` | crates/librtbit-dht/src/dht.rs:292-366 | For every network, order and clock the lookup ends in the idle state of its run: it has issued the initial requests and exactly the consequences of what the network answered, each has finished once, and successes and errors count them. |
| `LookupAnswers.NewNodesAreAsked` | crates/librtbit-dht/src/dht.rs:292-366 | By the end every node that a good answer named has been asked, if it was of the asker's family, not too deep, new, and there was room. |
| `LookupAnswers.AskedWereNamed` | crates/librtbit-dht/src/dht.rs:292-366 | And whatever was asked is an initial address or a node that some good answer named, one level up. |
| `Bencode.ParseValueLocal` | crates/librtbit-bencode/src/deserialize.rs:183-194 | A value is read from a prefix of the input; the same bytes followed by anything else give the same value and leave that. |
| `Bencode.RawBytesReparse` | crates/librtbit-bencode/src/deserialize.rs:485-545 | The raw bytes kept beside a value parse, on their own, to that value. |
| `Bencode.RoundTrip` | crates/librtbit-bencode/src/bencode_value.rs:19-97 | Reading a written value, whatever follows it, gives the value back and leaves what follows. |
| `Bencode.PrintParses` | crates/librtbit-bencode/src/bencode_value.rs:10-31 | A written value alone reads back as itself with nothing left. |
| `Bencode.PrefixFree` | crates/librtbit-bencode/src/bencode_value.rs:19-31 | No encoding is a prefix of another, and different values have different encodings. |
| `Bencode.PrintIsNormal` | crates/librtbit-bencode/src/bencode_value.rs:19-97 | Writing what was read is a normal form: reading and writing it again changes nothing. |
| `BencodeGrammar.ReadsIff` | crates/librtbit-bencode/src/deserialize.rs:44-194 | The reader reads a value and leaves a rest exactly if the input is that value in the grammar, character by character, followed by the rest; a repeated key counts as its last occurrence. |
| `BencodeGrammar.PrintsIff` | crates/librtbit-bencode/src/serialize.rs:50-139 | The writer's bytes are the one form of the value that BEP 3 allows: no leading zeros or plus signs, keys ascending. |
| `BencodeGrammar.StrictIsLoose` | crates/librtbit-bencode/src/deserialize.rs:44-194 | The reader takes all that BEP 3 allows. |
| `BencodeGrammar.SignAlone` | crates/librtbit-bencode/src/deserialize.rs:44-53 | It takes more: an integer of a sign and no digits reads as 0. |
| `BencodeGrammar.BeforeIff` | crates/librtbit-bencode/src/serialize.rs:98-139 | The order of keys is by the first byte in which they differ, or the shorter one first. |
| `BencodeErrors.EofMeansCut` | crates/librtbit-bencode/src/deserialize.rs:55-69 | If reading fails for the end of the input, the input is the start of some value. |
| `BencodeErrors.ShortIsEof` | crates/librtbit-bencode/src/deserialize.rs:55-69 | It fails so on the empty input and on a byte string shorter than it says. |
| `Octets.SortedKeysAscend` | crates/librtbit-bencode/src/serialize.rs:98-139 | Dictionary keys are written in strictly ascending byte order. |
| `ErrorContexts.ContextKeptIff` | crates/librtbit-bencode/src/deserialize.rs:55-69 | Reading values leaves the error context as it was exactly when their nesting fits the 259 keys it can count, or it was empty. |
| `ErrorContexts.ReportRightIff` | crates/librtbit-bencode/src/deserialize.rs:55-103 | Whatever the keys, an error is reported with the first four keys of the path to it exactly when no value finished on the way, at depth j > 0, went deeper than 259 - min(4, j) keys. |
| `ErrorContexts.EveryTrail` | crates/librtbit-bencode/src/deserialize.rs:88-103 | Every way to a failure, with any depths of the values before it, is that of some input. |
| `ErrorContexts.InputsRightIff` | crates/librtbit-bencode/src/deserialize.rs:88-103 | So the condition is exact for inputs: all that fail after values of given depths are reported rightly if and only if it holds of these depths. |
| `ErrorContexts.KeyLost` | crates/librtbit-bencode/src/deserialize.rs:55-103 | A failure under a single key, after a value n keys deep, is reported with that key exactly up to n = 258, and with none beyond. |
| `ErrorContexts.PushPop` | crates/librtbit-bencode/src/deserialize.rs:442-467 | Pushing a key, reading its value and popping the key has the effect of reading one key deeper. |
| `BencodeCodec.Deserializer.constructor` | crates/librtbit-bencode/src/deserialize.rs:19-27 | The reader starts with all input and an empty context. |
| `BencodeCodec.Deserializer.ParseInteger` | crates/librtbit-bencode/src/deserialize.rs:44-53 | The cursor moves over exactly one integer, or the error is the format's. |
| `BencodeCodec.Deserializer.ParseBytes` | crates/librtbit-bencode/src/deserialize.rs:55-69 | The cursor moves over exactly one byte string; a key is also pushed on the context, or counted once that is full. |
| `BencodeCodec.Deserializer.ReadValue` | crates/librtbit-bencode/src/deserialize.rs:183-194 | The cursor refines the format's parse; the context afterwards is exactly the one that depth leaves, or the one a failure on that trail is reported with. |
| `BencodeCodec.Deserializer.ReadSeq` | crates/librtbit-bencode/src/deserialize.rs:470-483 | The loop over elements reads the format's list. |
| `BencodeCodec.Deserializer.ReadMap` | crates/librtbit-bencode/src/deserialize.rs:439-468 | The loop over entries reads the format's dictionary, a repeated key replacing the earlier one. |
| `BencodeCodec.Deserializer.ReadEntry` | crates/librtbit-bencode/src/deserialize.rs:442-467 | The key is on the context while its value is read, and off it afterwards. |
| `BencodeCodec.Deserializer.ReadWithRawBytes` | crates/librtbit-bencode/src/deserialize.rs:485-545 | The bytes captured and the rest make up the input, and the captured bytes alone parse to the value. |
| `BencodeCodec.FromBytesWithRest` | crates/librtbit-bencode/src/deserialize.rs:88-103 | The result is the format's, and on failure the keys reported are exactly those that `ReportRightIff` judges. |
| `BencodeCodec.FromBytes` | crates/librtbit-bencode/src/deserialize.rs:73-85 | It succeeds with a value exactly when the whole input is that value in the grammar; trailing bytes are counted in the error. |
| `BencodeCodec.Serializer.WriteBytes` | crates/librtbit-bencode/src/serialize.rs:50-55 | A byte string is appended with its length, or bare while a key is collected. |
| `BencodeCodec.Serializer.Write` | crates/librtbit-bencode/src/bencode_value.rs:19-31 | The writer appends the encoding, which is in the strict grammar, in whatever order a dictionary is enumerated. |
| `BencodeCodec.Serializer.WriteList` | crates/librtbit-bencode/src/serialize.rs:58-76 | A list is written between its markers, element by element. |
| `BencodeCodec.Serializer.CollectEntries` | crates/librtbit-bencode/src/serialize.rs:103-130 | The temporary map holds each key, once, with its value's own encoding. |
| `BencodeCodec.Serializer.WriteSorted` | crates/librtbit-bencode/src/serialize.rs:132-139 | The entries come out in ascending order of their keys. |
| `BencodeCodec.WriteThenRead` | crates/librtbit-bencode/src/bencode_value.rs:10-97 | The bytes written are the strict form of the value, and reading them back is the identity. |
| `PeerWire.RoundTripIff` | crates/librtbit-peer-protocol/src/lib.rs:281-546 | Decoding gives an encoded message back, with its exact length and whatever follows, exactly if its payload is not empty where it must not be and fits the length prefix. |
| `PeerWire.CutShort` | crates/librtbit-peer-protocol/src/lib.rs:392-546 | Every proper prefix of an encoding asks for more bytes, never for too many, and for the exact number once the length is there. |
| `PeerWire.StreamRoundTrip` | crates/librtbit-peer-protocol/src/lib.rs:392-546 | Decoding a concatenation of messages over and over gives these messages with their lengths. |
| `PeerWire.DecodeLength` | crates/librtbit-peer-protocol/src/lib.rs:392-546 | A decoded message takes exactly what its length prefix says, which is there. |
| `PeerWire.PreambleMatches` | crates/librtbit-peer-protocol/src/lib.rs:145-155 | The separately written preamble followed by the block is the encoding of the piece message. |
| `WireFormats.EncodesIff` | crates/librtbit-peer-protocol/src/lib.rs:281-390 | A message is written with its length in four bytes, the number of its kind in BEP 3, 5 and 6, and its fields in their places, exactly if it is one the decoder accepts. |
| `WireFormats.DecodesIff` | crates/librtbit-peer-protocol/src/lib.rs:392-546 | Any buffer decodes to a message exactly if it starts with those bytes of that message. |
| `WireFormats.OtherKinds` | crates/librtbit-peer-protocol/src/lib.rs:392-546 | Exactly the kinds that are not assigned are refused, and exactly kind 20 is handed on as extended. |
| `WireFormats.WrongLengthIff` | crates/librtbit-peer-protocol/src/lib.rs:392-546 | A complete message is refused for its length exactly if its kind has another one, and the lengths reported are these. |
| `WireFormats.NotEnoughIff` | crates/librtbit-peer-protocol/src/lib.rs:392-546 | A buffer is too short exactly if it lacks part of what its first four bytes announce; the error says how much, and the kind if that is there. |
| `PeerCodec.DoubleBuf.ConsumeVariable` | crates/librtbit-peer-protocol/src/double_buf.rs:21-37 | It takes the first bytes of the two slices as two slices, or says how many are missing and takes none. |
| `PeerCodec.DoubleBuf.Consume` | crates/librtbit-peer-protocol/src/double_buf.rs:41-71 | It copies the first bytes of the joined slices wherever the cut is, or says how many are missing and takes none. |
| `PeerCodec.DoubleBuf.ReadU32Be` | crates/librtbit-peer-protocol/src/double_buf.rs:79-82 | A big-endian integer is read across the cut. |
| `PeerCodec.DoubleBuf.ReadU8` | crates/librtbit-peer-protocol/src/double_buf.rs:85-96 | The first byte is taken from whichever slice has it. |
| `PeerCodec.DoubleBuf.GetContiguous` | crates/librtbit-peer-protocol/src/double_buf.rs:99-105 | It gives a slice exactly when one of the two holds the bytes whole at its start, and then these bytes. |
| `PeerCodec.DoubleBuf.Advance` | crates/librtbit-peer-protocol/src/double_buf.rs:117-122 | What remains is the joined slices without the offset, or nothing past the end. |
| `PeerCodec.DoubleBuf.WithMaxLen` | crates/librtbit-peer-protocol/src/double_buf.rs:124-131 | The two slices returned join to the prefix of the given length. |
| `PeerCodec.Deserialize` | crates/librtbit-peer-protocol/src/lib.rs:392-546 | For every cut, decoding two slices gives the message laid out at their start, and misses none, except that a bitfield across the cut is refused as not contiguous. |
| `PeerCodec.DeserializePiece` | crates/librtbit-peer-protocol/src/lib.rs:512-540 | A piece's block may come in two slices, which join to the payload's. |
| `PeerCodec.Serialize` | crates/librtbit-peer-protocol/src/lib.rs:281-390 | The bytes of the message are written at the start of the buffer and nowhere else, or nothing at all exactly when they do not fit. |
| `PeerCodec.WriteThenRead` | crates/librtbit-peer-protocol/src/lib.rs:281-546 | A message written into a buffer and read back in two slices, wherever they are cut, comes through exactly if it is one the decoder accepts and not a bitfield with the cut inside. |
| `PeerCodec.PutPiece` | crates/librtbit-peer-protocol/src/lib.rs:195-207 | A block given in two slices is written as one. |
| `PeerCodec.SerializePiecePreamble` | crates/librtbit-peer-protocol/src/lib.rs:145-155 | The 13 bytes written, and no others, are the preamble that `PreambleMatches` speaks of. |
| `Geometry.NewShapedIff` | crates/librtbit-core/src/lengths.rs:84-96 | The pieces fill the content, the last one with what remains, exactly when their number fits 32 bits. |
| `Geometry.IterChunkInfos` | crates/librtbit-core/src/lengths.rs:175-194 | Counting down what remains yields the k-th chunk at its place with its size, and all of them. |
| `Geometry.ReceivedIsChunk` | crates/librtbit-core/src/lengths.rs:196-219 | Received data is accepted exactly if it is one of the piece's chunks, and as the very record the iteration yields. |
| `Geometry.ChunkSizeAt` | crates/librtbit-core/src/lengths.rs:241-251 | The closed form of a chunk's size agrees with the iteration, and is none past the last chunk. |
| `Geometry.ChunksTileContent` | crates/librtbit-core/src/lengths.rs:126-251 | Over all pieces the chunks tile the content from first to last byte; total_chunks is their number exactly when that fits 32 bits, and their indices count through it exactly when the last one fits. |
| `Geometry.ChunkRangesIff` | crates/librtbit-core/src/lengths.rs:220-224 | chunk_range gives exactly the places of each piece's chunks if and only if there are fewer than 2^32 chunks. |
| `Geometry.LastRangeEmpty` | crates/librtbit-core/src/lengths.rs:220-224 | A content of 2^46 bytes in pieces of 2^15 has 2^32 chunks, and its last piece, with two of them, an empty range. |
| `Files.PiecesWithinExact` | crates/librtbit-core/src/lengths.rs:161-173 | For any offset and length the range holds exactly the pieces with a byte of the content in it. |
| `Files.WholeRangeIff` | crates/librtbit-core/src/lengths.rs:161-173 | The range of the whole content ends after its last piece exactly when the number of pieces is below 2^32. |
| `Files.SizeIsShared` | crates/librtbit-core/src/lengths.rs:254-264 | Inside the content the size computed with full-length pieces is the true overlap, the shorter last piece included. |
| `Files.FileSizesSum` | crates/librtbit-core/src/lengths.rs:161-173 | Over a file's own range of pieces the sizes add up to the file's length. |
| `Files.PieceSizesSum` | crates/librtbit-core/src/lengths.rs:254-264 | Over all files the sizes of a piece add up to the piece's length. |
| `Files.IterFileDetails` | crates/librtbit-core/src/torrent_metainfo.rs:392-405 | The running offset puts each file where those before it end, with the pieces of that range. |
| `FileProgress.HaveMore` | crates/librtbit/src/chunk_tracker.rs:187-200 | Verifying one more piece adds its share to a recalculated count, if the file's range holds it. |
| `FileProgress.FinishedIff` | crates/librtbit/src/chunk_tracker.rs:374-380 | A file's true count is its length exactly when every piece of the file is verified. |
| `FileProgress.VisitsAllIff` | crates/librtbit/src/torrent_state/live/mod.rs:672-682 | The loop reaches every file that shares the piece exactly when no empty file lies between two of them. |
| `FileProgress.LoopKeepsStepIff` | crates/librtbit/src/torrent_state/live/mod.rs:672-682 | A completed piece never makes a count too large; all counts are right afterwards exactly if they were before and the loop was not interrupted, so what was missed is never made good. |
| `FileProgress.EmptyFileInterrupts` | crates/librtbit/src/torrent_state/live/mod.rs:672-682 | A torrent of files of 1, 0 and 1 bytes violates the condition. |
| `FileProgress.ChunkTracker.constructor` | crates/librtbit/src/chunk_tracker.rs:158-185 | A new tracker's counts are right for the pieces it was given. |
| `FileProgress.ChunkTracker.RecalculatePerFileBytes` | crates/librtbit/src/chunk_tracker.rs:187-200 | The recalculation makes all counts right. |
| `FileProgress.ChunkTracker.UpdateFileHave` | crates/librtbit/src/chunk_tracker.rs:391-404 | One file's count grows by its share of the piece, and what remains is returned. |
| `FileProgress.ChunkTracker.UpdateFiles` | crates/librtbit/src/torrent_state/live/mod.rs:672-682 | Exactly the first run of files whose range holds the piece is updated. |
| `FileProgress.ChunkTracker.CompletePiece` | crates/librtbit/src/chunk_tracker.rs:272-282 | The counts are what a recalculation would give if and only if they were before and no empty file lies between two that share the piece. |
| `FileProgress.Download` | crates/librtbit/src/torrent_state/live/mod.rs:664-682 | For pieces completing in any order from none, the counts end up right exactly when no completed piece is shared around an empty file. |
| `PeerLists.CleanedExact` | crates/librtbit-dht/src/peer_store.rs:260-284 | A list keeps only peers within their time to live, as many as 100 allow, and loses no fresh one newer than one it keeps. |
| `PeerLists.CleanAllShrinks` | crates/librtbit-dht/src/peer_store.rs:260-289 | Cleaning never makes the total larger. |
| `PeerLists.DrainTotal` | crates/librtbit-dht/src/peer_store.rs:296-331 | The eviction removes exactly the asked number of peers. |
| `PeerLists.DrainShape` | crates/librtbit-dht/src/peer_store.rs:296-331 | Hashes are emptied in the order of their oldest peer, at most one is drained in part, and those after it are untouched. |
| `PeerLists.DropKeepsNewest` | crates/librtbit-dht/src/peer_store.rs:318-323 | In the hash drained in part no survivor is older than a peer that goes. |
| `PeerStores.NewerPeerEvicted` | crates/librtbit-dht/src/peer_store.rs:231-331 | A store over a cap of one, with nothing stale in it, from which a collection takes a newer peer and leaves an older one. |
| `PeerLists.OldestGoFirstIff` | crates/librtbit-dht/src/peer_store.rs:231-331 | The oldest peers go first, however many go, exactly when no hash has a peer newer than one of a hash drained later. |
| `PeerLists.EvictsListing` | crates/librtbit-dht/src/peer_store.rs:296-331 | With the peers listed hash by hash, oldest first in each, an eviction of n peers takes the first n and leaves the others. |
| `PeerLists.OldestGoFirstNowIff` | crates/librtbit-dht/src/peer_store.rs:231-331 | One eviction of n peers takes no peer newer than one it leaves exactly when that listing has none newer among its first n than after them. |
| `PeerStores.NearIff` | crates/librtbit-dht/src/peer_store.rs:109-119 | The distance limit admits exactly distances below 2^140, which are the hashes that share our first 20 bits. |
| `PeerStores.WantedAddrsAre` | crates/librtbit-dht/src/peer_store.rs:192-207 | An address is returned exactly if it is stored and of a wanted family. |
| `PeerStores.CappedTotal` | crates/librtbit-dht/src/peer_store.rs:291-331 | The cap brings the total down to the limit, no more and no less, and leaves a store within it alone. |
| `PeerStores.CappedLists` | crates/librtbit-dht/src/peer_store.rs:291-331 | Lists only lose peers to the cap, and no list is left empty. |
| `PeerStores.PeerStore.constructor` | crates/librtbit-dht/src/peer_store.rs:109-119 | The new store is empty, with the source's limits. |
| `PeerStores.PeerStore.GenTokenFor` | crates/librtbit-dht/src/peer_store.rs:121-135 | The new token is remembered last, and past the limit only the oldest is forgotten. |
| `PeerStores.PeerStore.StorePeer` | crates/librtbit-dht/src/peer_store.rs:137-190 | An announce is stored exactly if it is near enough, carries a token given to that node and address, and is known already or finds room; its list gains the peer or has its time renewed, and no other list changes. |
| `PeerStores.PeerStore.GetForInfoHash` | crates/librtbit-dht/src/peer_store.rs:192-207 | The hash's addresses of the wanted families are returned, in order. |
| `PeerStores.PeerStore.GarbageCollectPeers` | crates/librtbit-dht/src/peer_store.rs:239-343 | From any store: expired tokens go, lists are cleaned, just the excess is evicted in order, and the counter is the true total within the limit; a store that was within its limits loses only what cleaning takes. |
| `StoreRuns.Run` | crates/librtbit-dht/src/peer_store.rs:109-343 | Any run of queries, announces, lookups and collections does, step by step, what its results say; at the end the counter is the true total within the cap, tokens are within theirs, every hash is near, no list is empty or repeats an address, and every stored peer's address was given a token in that run. |
| `StoreRuns.Apply` | crates/librtbit-dht/src/peer_store.rs:121-343 | Each operation changes tokens, peers and counter as its own contract says, and returns its result. |
| `StoreRuns.PeerOrigin` | crates/librtbit-dht/src/peer_store.rs:137-289 | After any run each stored peer was stored by some accepted announce, at the time kept, and since then neither announced again nor found stale. |
| `StoreRuns.StoredIff` | crates/librtbit-dht/src/peer_store.rs:137-289 | It is stored exactly then, as long as no collection has to cut its hash's list to 100. |
| `StoreRuns.TokenOrigin` | crates/librtbit-dht/src/peer_store.rs:121-135 | Each remembered token was given to that node at that address by a query of the run, and no collection since found it stale. |
| `StoreRuns.AnnounceOrigin` | crates/librtbit-dht/src/peer_store.rs:137-156 | Each accepted announce showed a token that an earlier query from that node and address was given, not found stale in between. |
| `StoreRuns.FoundIsVouchedFor` | crates/librtbit-dht/src/peer_store.rs:137-207 | Every address a lookup returns was announced for that hash, by a node that had been given its token, with neither found stale in time. |
| `StoreRuns.SparedIsFound` | crates/librtbit-dht/src/peer_store.rs:137-207 | A lookup returns every such address of a wanted family, as long as no collection has to cut the list. |
| `StoreRuns.FoundIff` | crates/librtbit-dht/src/peer_store.rs:137-343 | A lookup returns an address exactly if its family is wanted and an accepted announce stored it, under its own or the named port, with no collection 15 minutes or more after the last such one; as long as no collection has to cut the list. |
| `StoreRuns.AcceptedHadToken` | crates/librtbit-dht/src/peer_store.rs:121-190 | Every accepted announce is for a hash with our first 20 bits, and shows a token given to that node at that address, with no collection between 10 minutes or more after it was given. |

## Left out

- Bencode.RoundTrip: integers and lengths are unbounded; numbers too large for the source's machine integers are not modelled.
- Lookup.FindNode: the lookup for peers, which runs the same request code forever, is not modelled, nor are the callbacks at a request's start and end, which add the node to the routing table and mark it there (`dht.rs`, lines 191-217).
- PeerWire.RoundTripIff: extended messages are handed on undecoded; their payloads are not part of this model.
- Geometry.NewShapedIff: a piece length of zero, on which the source panics, is excluded; sums beyond 64 bits are not modelled.
- RequestEngine.RunKeeps: holds for runs in which fewer than 65,536 ids are drawn while a request is live or a message unsent; `RunHarmIff` has the exact condition for all runs, and `RepliesOwnIff` the one for replies.
- RequestEngine.DhtState.OnReceivedMessage: only responses and errors; the answers to queries are not modelled.
- FileProgress.ChunkTracker.CompletePiece: leaves out the chunk tracker's other fields, the chunk bitmap, the queue and the byte totals over all files.
- Routing tables and peer stores read back from disk, and their serialisation.
- Typed structs over bencode, the handshake, compact address lists, tracker and local discovery clients: generated or easier code.
- `CurrentPiece`, piece priorities, storage, sessions, the HTTP interface and the desktop application.
- Sockets, timers, rate limits and the scheduling of tasks, beyond the steps named above.
