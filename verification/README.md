# Verification of nldb's ordered tables and their replication

nldb keeps tables in memory in an order-statistic B+-tree, hands each transaction's log through a
disruptor ring to a thread that publishes it, and replays it on slaves. This project models these
three cores and proves what they keep over whole runs.

**The tree** (`sorted_view`, `tree_shape`, `tree_rows`, `tree_counts`, `tree_cascade`, `tree_leaves`,
`tree_height`, `array_tree`, `tree_runs`, `cursor`, `cursor_gaps`). A node is an index into a memory with one sequence
per node field, so an assignment through a node pointer is an update of one sequence, and a raw pointer to a
key is a node and a slot (`KeyPtr`). `ArrayTree` has the program's methods: descent, splits up to a new root,
the recount of detached halves, and the count increments that stop at a fence. Ghost state
gives each node the interval it serves and its level. Keys are numbers; `key_order` shows that `memcmp` on keys
of one length is the order of the numbers they spell.

**The node's array** (`key_order`, `sorted_array`). The byte arena, the parallel pointers and the shifts, refined
to the value view (`SArr`) that the tree uses, including the stale slots behind the used part.

**The ring** (`arithmetic`, `disruptor`, `ring`, `progress`). One publisher and an acyclic graph of consumers as interleaved steps.
Every step is one access to a shared sequence, so scans over several sequences combine values of different ages.

**Transactions and replication** (`log_format`, `replay`, `transactions`, `replication`, `agreement`, `clients`,
`catching_up`, `assertions`). The log buffer is a class over bytes. A master, its publisher thread, a link that keeps
messages in order, and a slave form one state machine over the ring; an assertion of the program that does not hold
sets `failed`, and `FailsExactly` says which runs do.

## What is proved, in short

- Every run of puts, deletes, lookups and selections answers as a map does, and keeps the shape of the
  tree, however many levels split. The counts are exact as long as deletes name stored keys, and in no run is one
  too large, so selecting by order never hits its assertion and finds a stored key. A lookup after n puts visits
  at most max(1, log2(n + 1)) internal nodes.
- In every interleaving a slot granted to the publisher holds no event that some consumer has yet to
  handle, a batch of n takes the n sequences behind the cursor, consumers are given the events written, each once
  and in order, and no reachable state is stuck.
- Of every run, the transactions ended, their records and the tables are told from the clients' calls alone: the last
  call about a key decides. From every reachable state the threads can send and apply all that has ended, and a client
  can run any transaction that fits a message.
- At every begin the slot is clear; transaction ids arrive as 1, 2, 3, ... at the publisher and at the slave;
  messages round-trip; the slave mirrors what has been committed for as long as its replays succeed, and keeps the
  master's keys exactly if no abort has changed them.

## Where the code does less than it seems to intend

The model follows the code. Each of these is stated exactly.

- `del` of an absent key lowers every count up to the root (src/nldb/nldb_array_tree.h:1203-1208):
  `ArrayTree.Del` says that counts stay exact if and only if the key was stored, and `LostByAbsentDelete` that the largest key can
  then no longer be had by its order.
- A cursor reports its end on entering an emptied leaf (src/nldb/nldb_array_tree.h:1365-1382, 1411-1428): `DrainForward` and
  `DrainBackward` say that what stays behind is exactly what an emptied leaf further on cuts off. `StopsShort` gives, for every
  capacity, a run of puts and of deletes of stored keys after which a scan from either end misses the other end.
- A cursor sought by an absent key starts with a wrong order (src/nldb/nldb_plugin_array_tree.cpp:453-461): `SeekKey` says that,
  with exact counts, its order is true if and only if the key is stored or, backward, no key of its leaf is below it.
- Replay stores two bytes of each value (src/nldb/nldb_transaction_log_redoer.h:83): `MirrorExact` and `CaughtUp` say that a
  replicated value is right if and only if it has two bytes.
- `abort` leaves table writes in place (src/nldb/nldb.cpp:450-463): `RunAgrees` says that the slave follows the master if and only if no
  abort has changed the key sets, and `AbortDiverges` gives a run where it does not.
- A committed transaction can then delete a key that only an aborted one has put. Its replay fails, and the slave
  thread asserts that no replay does (src/nldb/nldb_repl_slave_thread.cpp:131-140). `FailsExactly` says that of the
  modelled assertions of transactions and replication this is the one that can fail, and exactly when: if the slave has
  received a committed transaction that deletes a key which the committed ones before it have not left.
  `AbortStopsSlave` gives such a run: put, abort, delete of the same key, commit.
- After a delete of an absent key, the assertion that a leaf's count is the sum of its halves' (src/nldb/nldb_array_tree.h:944) can fail:
  `SplitLeaf` says that it holds exactly if the leaf's count is right.

## Model

| member | source | states |
|---|---|---|
| SortedView.FoundIsMember | src/nldb/nldb_sorted_array.h:120-192 | in ascending keys the search finds a key exactly if it is stored, and then the keys before it are the smaller ones |
| SortedView.PutIsUpdate | src/nldb/nldb_sorted_array.h:551-575 | put on a sorted array that holds a map's interval gives one that holds the updated map, a present key being replaced |
| SortedView.DelIsRemoval | src/nldb/nldb_sorted_array.h:665-695 | del gives an array that holds the map without the key; an absent key changes nothing |
| SortedView.SplitHolds | src/nldb/nldb_sorted_array.h:919-961 | the halves of a split hold the map below and from the first key of the right half |
| KeyOrder.MemCmpIsOrder | src/nldb/nldb_sorted_array.h:42-52 | memcmp on keys of one length orders them as the numbers they spell, and is 0 only for equal keys |
| KeyOrder.SlotsFit | src/nldb/nldb_sorted_array.h:487-503 | the slots counted by dividing the arena by the key length lie inside it, whether or not the length divides it |
| SortedArrays.SortedArray.constructor | src/nldb/nldb_sorted_array.h:487-503 | an empty array over an arena of any size |
| SortedArrays.SortedArray.SearchForward | src/nldb/nldb_sorted_array.h:120-192 | the byte loop stops at the last key not above the one sought, or in front of the arena, and key and data positions go together |
| SortedArrays.SortedArray.SearchBackward | src/nldb/nldb_sorted_array.h:194-235 | the loop from the other end stops at the first key not below it, or behind the last |
| SortedArrays.SortedArray.MoveKeysRight | src/nldb/nldb_sorted_array.h:265-293 | the bytes behind the position move right by one key, the rest stays |
| SortedArrays.SortedArray.MoveKeysLeft | src/nldb/nldb_sorted_array.h:295-322 | the bytes from the position on move left by one key |
| SortedArrays.SortedArray.MoveDataRight | src/nldb/nldb_sorted_array.h:347-371 | the pointers move with the keys |
| SortedArrays.SortedArray.MoveDataLeft | src/nldb/nldb_sorted_array.h:373-398 | the pointers move with the keys |
| SortedArrays.SortedArray.SetKeyDataAt | src/nldb/nldb_sorted_array.h:324-345 | writes one key and one pointer, and nothing else |
| SortedArrays.SortedArray.InsertKeyDataAt | src/nldb/nldb_sorted_array.h:400-432 | key and pointer go in at one position; the count grows by one and the used space by one key length |
| SortedArrays.SortedArray.RemoveKeyDataAt | src/nldb/nldb_sorted_array.h:434-467 | the reverse |
| SortedArrays.SortedArray.TestFull | src/nldb/nldb_sorted_array.h:997-1010 | the byte test for fullness is the test that no slot is left |
| SortedArrays.SortedArray.Put | src/nldb/nldb_sorted_array.h:551-575 | on the bytes, put is the put of the value view: keys stay strictly ascending and paired with their pointers, used space is count times key length |
| SortedArrays.SortedArray.Del | src/nldb/nldb_sorted_array.h:665-695 | on the bytes, del is the del of the value view and returns the removed pointer, or none |
| SortedArrays.SortedArray.Get | src/nldb/nldb_sorted_array.h:577-610 | a stored key is found with its pointer and one-based order, an absent one with order 0 |
| SortedArrays.SortedArray.GetAt | src/nldb/nldb_sorted_array.h:612-634 | the key and pointer of an order |
| SortedArrays.SortedArray.IterForward | src/nldb/nldb_sorted_array.h:725-750 | an iterator at the first key not below the given one |
| SortedArrays.SortedArray.IterBackward | src/nldb/nldb_sorted_array.h:752-777 | an iterator at the last key not above the given one, found by the search from the other end |
| SortedArrays.SortedArray.IterAt | src/nldb/nldb_sorted_array.h:783-812 | an iterator at the key of an order |
| SortedArrays.SortedArray.IterNext | src/nldb/nldb_sorted_array.h:846-875 | delivers the key at the iterator with its pointer and moves one key on, both positions together; nothing behind the last key |
| SortedArrays.SortedArray.IterPrev | src/nldb/nldb_sorted_array.h:877-906 | the same the other way, down to the position before the first key |
| SortedArrays.SortedArray.RemoveMaxKey | src/nldb/nldb_sorted_array.h:697-723 | the returned key pointer leads into the vacated tail, where the largest key still stands; an empty array stays as it is |
| SortedArrays.SortedArray.InitFrom | src/nldb/nldb_sorted_array.h:505-542 | key bytes of any length and their pointers become the whole content, whatever it and its key length were before |
| SortedArrays.SortedArray.Split | src/nldb/nldb_sorted_array.h:919-961 | the upper half moves to the other array, bytes and pointers alike |
| TreeShape.SeparatorIsNew | src/nldb/nldb_array_tree.h:874-895 | the key of a child that waits to be linked equals no key of the node: the assertion for equal keys is unreachable, also with stale separators |
| TreeShape.LinkInner | src/nldb/nldb_array_tree.h:357-370 | linking it right of its sibling restores the node's order and its children's intervals |
| TreeShape.HalvesKids | src/nldb/nldb_array_tree.h:561-623 | the halves' children in order are the node's children, both keep a key, and the promoted key stays readable in the first vacated slot |
| TreeRows.SplitRow | src/nldb/nldb_array_tree.h:561-623 | after a split the level is in order, but for the child still waiting |
| TreeRows.SplitAbove | src/nldb/nldb_array_tree.h:561-623 | seen from above, the right half waits beside the left one |
| TreeRows.GrowRows | src/nldb/nldb_array_tree.h:850-867 | a new root over the two halves is in order |
| TreeCounts.SplitBalance | src/nldb/nldb_array_tree.h:608-618 | recounting the halves while the right one is detached leaves the parent ahead by the right half's count: exactly, or at most if counts were not exact |
| TreeCounts.LinkBalance | src/nldb/nldb_array_tree.h:896-905 | linking a child leaves its parent behind by the child's count |
| TreeCounts.PropagateStep | src/nldb/nldb_array_tree.h:1008-1018 | one step of propagation repairs a node and passes the difference to its parent |
| TreeCounts.Settle | src/nldb/nldb_array_tree.h:1008-1018 | stopping at the fence leaves every node exact and the fence ahead by what is still owed |
| TreeCascade.LinkStep | src/nldb/nldb_array_tree.h:896-905 | with room in the node, linking completes the insertion, and the fence is the node |
| TreeCascade.LinkCounts | src/nldb/nldb_array_tree.h:896-905 | the linked child's parent lacks its count, all other nodes are as balanced as before |
| TreeCascade.MidPtr | src/nldb/nldb_array_tree.h:826-848 | the pointer to the promoted key leads to that key after the split |
| TreeCascade.Rejoin | src/nldb/nldb_array_tree.h:836-887 | when the levels above have taken in the right half, both raw key pointers still lead to their keys, and comparing them picks the half that the sibling is in |
| TreeCascade.RejoinRoot | src/nldb/nldb_array_tree.h:850-887 | the same when the root was split |
| TreeCascade.FinishSplit | src/nldb/nldb_array_tree.h:874-887 | linking under that half completes the insertion |
| TreeCascade.HalvesOwe | src/nldb/nldb_array_tree.h:859-862 | an inner node that is ahead by what is still owed has, before its split, a count larger by that than its halves together |
| TreeCascade.AfterTake | src/nldb/nldb_array_tree.h:839-848 | propagating the right half's count leaves shape and key pointers as they were, so the waiting child can be linked |
| TreeLeaves.LeafSplitPending | src/nldb/nldb_array_tree.h:937-967 | after a leaf split the right leaf waits for its parent, and its first key, which the pointer passed up designates, separates the two |
| TreeLeaves.LeafSplitChain | src/nldb/nldb_array_tree.h:242-282 | the new leaf stands between its neighbours in the doubly linked chain |
| TreeLeaves.ServerUnique | src/nldb/nldb_array_tree.h:710-749 | a key is served by one leaf only |
| TreeLeaves.CountIsCnt | src/nldb/nldb_array_tree.h:376-412 | a node's cached count is never larger than the number of stored keys in its interval, and with exact counts it is that number |
| TreeLeaves.PrefixIsCnt | src/nldb/nldb_array_tree.h:376-395 | the same for the sum over the children before a position |
| TreeLeaves.LeafRank | src/nldb/nldb_array_tree.h:1119-1151 | the keys before a leaf and the position in it give a key's rank |
| TreeLeaves.CarriedCounts | src/nldb/nldb_array_tree.h:1203-1208 | changing every count on the way to the root by d keeps the leaf counts exact exactly if the leaf changed by d keys |
| TreeLeaves.CarriedAtMost | src/nldb/nldb_array_tree.h:1203-1208 | carrying a decrease to the root makes no leaf's count too large, also if the key was absent |
| TreeLeaves.PathIsServers | src/nldb/nldb_array_tree.h:1008-1018 | the nodes on the way from a leaf to the root are just those whose interval has the leaf's keys |
| TreeLeaves.RootCount | src/nldb/nldb_array_tree.h:1442-1452 | the root's count is at most the number of stored keys, and that number if counts are exact |
| TreeHeight.ManyLeaves | src/nldb/nldb_array_tree.h:561-623 | below a node of level h are at least 2^h leaves |
| TreeHeight.HeightBound | src/nldb/nldb_array_tree.h:719-738 | the index has one level, or 2^height is at most the number of leaves |
| ArrayTrees.ArrayTree.constructor | src/nldb/nldb_array_tree.h:1062-1080 | an empty tree: an internal root over one leaf |
| ArrayTrees.ArrayTree.CountKids | src/nldb/nldb_array_tree.h:376-395 | the loop sums the cached counts of the children before a position |
| ArrayTrees.ArrayTree.SplitInner | src/nldb/nldb_array_tree.h:561-623 | splits keys and children, promotes the middle key, and makes the right half the parent of the children it takes |
| ArrayTrees.ArrayTree.Recount | src/nldb/nldb_array_tree.h:608-618 | both halves are counted from their children |
| ArrayTrees.ArrayTree.Propagate | src/nldb/nldb_array_tree.h:1008-1032 | exactly the nodes from the start up to, not including, the fence change by the increment; what was balanced but for the two ends comes out balanced |
| ArrayTrees.ArrayTree.TakeIn | src/nldb/nldb_array_tree.h:836-872 | the levels above take in a right half, with all their counts repaired |
| ArrayTrees.ArrayTree.TakeInRoot | src/nldb/nldb_array_tree.h:850-867 | a split root gets a new root that counts both halves; with exact counts its old count is larger than theirs together, as the program asserts |
| ArrayTrees.ArrayTree.LinkHalf | src/nldb/nldb_array_tree.h:874-895 | the waiting child goes under the half its sibling is in; the case of equal keys is dead |
| ArrayTrees.ArrayTree.PutToInternal | src/nldb/nldb_array_tree.h:810-908 | the child is linked beside its sibling, every level from there up is in order, and counts are exact but for the linked child's, which the parent up to the returned fence lacks |
| ArrayTrees.ArrayTree.SplitLeaf | src/nldb/nldb_array_tree.h:242-282 | the leaf's upper half moves to a new leaf, spliced into the chain; the assertion at line 944 that the counts add up holds exactly if the leaf's count was its number of keys |
| ArrayTrees.ArrayTree.PutInHalf | src/nldb/nldb_array_tree.h:946-962 | the key goes into the half that serves it, and the pointer to the right half's first key stays good |
| ArrayTrees.ArrayTree.PutToFullLeaf | src/nldb/nldb_array_tree.h:936-973 | split, put into the right half or the left one, and index update store the pair, with exact counts but for the new key |
| ArrayTrees.ArrayTree.PutToLeaf | src/nldb/nldb_array_tree.h:920-984 | the pair is stored, and the returned leaf is the one that serves the key |
| ArrayTrees.ArrayTree.FindLeaf | src/nldb/nldb_array_tree.h:710-749 | the descent ends at the leaf that serves the key, with at most, or if counts are exact just, the number of keys before it, after as many internal nodes as the tree has levels above the leaves: one, or at most log2 of the number of leaves |
| ArrayTrees.ArrayTree.GetByKey | src/nldb/nldb_array_tree.h:1119-1151 | the stored value or none; the order is one more than the number of smaller keys, for an absent key the number of keys before its leaf, and with inexact counts never more than that |
| ArrayTrees.ArrayTree.ServeByOrder | src/nldb/nldb_array_tree.h:479-528 | the loop finds the child that contains the order; the assertion behind it is dead |
| ArrayTrees.ArrayTree.GetByOrder | src/nldb/nldb_array_tree.h:1156-1188 | in every tree an order up to the root's count finds a stored key with its value and at least order - 1 smaller keys, exactly that many if counts are exact; other orders find none |
| ArrayTrees.ArrayTree.FindByOrder | src/nldb/nldb_array_tree.h:760-800 | the descent ends at a position inside a leaf, in every tree |
| ArrayTrees.ArrayTree.KeyCount | src/nldb/nldb_array_tree.h:1442-1452 | the root's count: at most the number of stored keys, and that number if counts are exact |
| ArrayTrees.ArrayTree.Put | src/nldb/nldb_array_tree.h:1089-1114 | map update; the whole shape and exact counts are kept, and counts never become too large; at most one leaf is added |
| ArrayTrees.ArrayTree.Del | src/nldb/nldb_array_tree.h:1190-1214 | map removal; the shape is kept; whether or not the key was stored, the count of every node whose interval has the key drops by one, the root's included, and no other count changes; so counts stay exact if and only if the key was stored and never become too large |
| TreeRuns.Run | src/nldb/nldb_array_tree.h:1062-1214 | every run of operations answers as a map does. Ranks and selections are exact as long as deletes name stored keys, and then the order of an absent key is at most a leaf's content short of its rank; in all runs ranks are never too large and selections find stored keys, none before its turn. A lookup after n puts visits at most max(1, log2(n + 1)) internal nodes |
| TreeRuns.Step | src/nldb/nldb_array_tree.h:1089-1214 | one operation answers as the map of all operations so far says, and leaves the tree that they call for |
| TreeRuns.RankThenSelect | src/nldb/nldb_array_tree.h:1119-1188 | the rank of a stored key selects that key |
| TreeRuns.SelectThenRank | src/nldb/nldb_array_tree.h:1119-1188 | the key selected by an order has that rank |
| TreeRuns.RankUnique | src/nldb/nldb_array_tree.h:1119-1151 | no two stored keys have the same rank |
| TreeRuns.LostByAbsentDelete | src/nldb/nldb_array_tree.h:1203-1208 | after a delete of an absent key, asking for the last order finds nothing |
| Cursors.Cursor.FetchForward | src/nldb/nldb_plugin_array_tree.cpp:513-570 | delivers the smallest key still ahead with its value and counts on, as far from the true rank as before; ends exactly if the next leaf is missing or empty |
| Cursors.Cursor.FetchBackward | src/nldb/nldb_plugin_array_tree.cpp:513-570 | delivers the largest key still ahead and counts down |
| Cursors.Cursor.SkipForward | src/nldb/nldb_array_tree.h:1348-1390 | going to the next leaf changes neither what is ahead nor the rank |
| Cursors.Cursor.SkipBackward | src/nldb/nldb_array_tree.h:1394-1438 | the same backward |
| Cursors.Cursor.SeekIter | src/nldb/nldb_array_tree.h:1216-1264 | ahead are the stored keys from the given one on, in either direction |
| Cursors.Cursor.SeekKey | src/nldb/nldb_plugin_array_tree.cpp:426-474 | the same; the counter is the key's rank, or for an absent key the number of keys before its leaf, exactly so with exact counts and never more otherwise. So with exact counts it is short by the keys of the leaf below the absent one, and forward by one more: true exactly if the key is stored or, backward, no key of its leaf is below it |
| Cursors.Cursor.SeekOrder | src/nldb/nldb_plugin_array_tree.cpp:476-511 | succeeds exactly for an order up to the root's count; the counter is at most the true rank, and with exact counts it is that rank |
| Cursors.Cursor.DrainForward | src/nldb/nldb_array_tree.h:1348-1390 | the keys delivered are the first of those ahead, ascending, each once, their orders all as far from the true ranks as the counter was; a key stays behind exactly if an emptied leaf past the starting one precedes it, so all are delivered exactly if no emptied leaf precedes one that has keys |
| Cursors.Cursor.DrainBackward | src/nldb/nldb_array_tree.h:1394-1438 | the mirror image |
| CursorGaps.EmptyOut | src/nldb/nldb_array_tree.h:1190-1214 | deleting a leaf's keys one by one removes them from the map, keeps the counts exact, and leaves the leaf linked and empty |
| CursorGaps.MakeHole | src/nldb/nldb_array_tree.h:1210-1211 | for every capacity, a run of puts and of deletes of stored keys ends with an emptied leaf between two leaves with keys |
| CursorGaps.Scan | src/nldb/nldb_array_tree.h:1365-1382 | a scan from a stored key before an emptied leaf delivers that key and none behind the leaf, in either direction |
| CursorGaps.StopsShort | src/nldb/nldb_array_tree.h:1348-1438 | the result is such a tree, with exact counts, and two ascending or descending scans of its stored keys: the one from the first key misses the last one, and the one from the last misses the first |
| Disruptor.GetMinimumSequence | src/disruptor--/disruptor/sequence.h:124-134 | read element by element while the sequences grow, the minimum lies between the true minimum at the start and at the end of the scan |
| Disruptor.StepInv | src/disruptor--/disruptor/claim_strategy.h:50-98 | every step of publisher and consumers keeps handled <= cursor <= granted claim <= gating sequence + size, and every partial scan a lower bound |
| Disruptor.RunInv | src/disruptor--/disruptor/event_processor.h:83-97 | so does every interleaving |
| Disruptor.RunClaims | src/disruptor--/disruptor/claim_strategy.h:57-62 | in every run the claims are the sum of the batch sizes asked for, the cursor is what of them has been published, nothing is unpublished exactly if no claim is open, and a consumer has taken as many events as its next sequence says |
| Disruptor.BehindLags | src/disruptor--/disruptor/wait_strategy.h:309-326 | a consumer that depends on another, directly or not, has not passed it |
| Disruptor.SlotsApart | src/disruptor--/disruptor/claim_strategy.h:89-98 | an event that some consumer has yet to handle and a sequence granted for writing never share a slot |
| Disruptor.GrantedBound | src/disruptor--/disruptor/claim_strategy.h:89-98 | cursor and granted claim are at most one buffer ahead of every consumer |
| Disruptor.SureClaim | src/disruptor--/disruptor/claim_strategy.h:64-74 | after the capacity test has said yes, the next claim does not wait |
| Disruptor.TestAnswers | src/disruptor--/disruptor/claim_strategy.h:64-74 | whatever the consumers do during the capacity test, a yes means that one more sequence fits, and a no that it did not fit when the test began |
| Disruptor.ChainOrdered | src/disruptor--/disruptor/wait_strategy.h:309-326 | in a chain of consumers the sequences are ordered, and the first is at most the cursor |
| Disruptor.ChainGated | src/disruptor--/disruptor/sequencer.h:65-79 | gating on the last of a chain protects every consumer |
| Rings.MaskIsMod | src/disruptor--/disruptor/ring_buffer.h:77-79 | masking with size - 1 is the remainder, for sizes that are powers of two |
| Rings.RingStepInv | src/disruptor--/disruptor/ring_buffer.h:77-79 | every step keeps the last `size` events readable in their slots |
| Rings.HandleReads | src/disruptor--/disruptor/event_processor.h:87-94 | what a consumer finds in the slot is what was published under that sequence |
| Rings.RunFills | src/disruptor--/disruptor/ring_buffer.h:76-78 | in every run the events by sequence are those the publisher has written, in order, and the sequences move as without events |
| Rings.RunDelivers | src/disruptor--/disruptor/event_processor.h:83-97 | in every run each consumer has been given the first of the events written, each once and in order, as many as it has taken and none that is not published; unless a claim is open, all that is written is published |
| Progress.CatchUp | src/disruptor--/disruptor/event_processor.h:83-97 | from every reachable state the consumers can all reach the cursor |
| Progress.NeverStuck | src/disruptor--/disruptor/claim_strategy.h:89-98 | from every reachable state in which the publisher waits, it can be granted its claim |
| Progress.ClaimReturns | src/disruptor--/disruptor/sequencer.h:113-125 | from every reachable idle state a claim of any n up to the size can come to be granted, and is of just n sequences |
| LogFormat.LeRoundTrip | src/nldb/nldb_transaction_log_buffer.h:85-90 | the fields of a header are read as they were written, if they fit |
| LogFormat.RecordsFrame | src/nldb/nldb_transaction_log_buffer.h:93-122 | bytes written elsewhere leave the records readable |
| LogFormat.RecordsAppend | src/nldb/nldb_transaction_log_buffer.h:93-122 | a record written at the end extends the list |
| LogFormat.TxLogBuffer.constructor | src/nldb/nldb_transaction_log_buffer.h:46-48 | a clear buffer |
| LogFormat.TxLogBuffer.ClearLog | src/nldb/nldb_transaction_log_buffer.h:66-73 | no records, not finalized, the same transaction id |
| LogFormat.TxLogBuffer.Reset | src/nldb/nldb_transaction_log_buffer.h:75-78 | a clear buffer |
| LogFormat.TxLogBuffer.SetTransactionId | src/nldb/nldb_transaction_log_buffer.h:54-58 | sets an id that was not set |
| LogFormat.TxLogBuffer.AppendLog | src/nldb/nldb_transaction_log_buffer.h:93-122 | the records in the bytes are the ones before and the new one, each part aligned to eight |
| LogFormat.TxLogBuffer.Finalize | src/nldb/nldb_transaction_log_buffer.h:221-230 | writes the header and touches no record |
| LogFormat.TxLogBuffer.BuildMessage | src/nldb/nldb_transaction_log_buffer.h:232-240 | the bytes up to the next free one are the message for the transaction and its records |
| LogFormat.ParseRecord | src/nldb/nldb_transaction_log_buffer.h:126-154 | yields the record with the same table, type, key and value; its assertions hold and it stays inside the record |
| LogFormat.ParseMessage | src/nldb/nldb_transaction_log_buffer.h:199-213 | the loop yields all records in order, ends exactly at the total size, and reads nothing behind the message |
| LogFormat.RoundTrip | src/nldb/nldb_transaction_log_buffer.h:66-240 | for every list of records that fits, appending, finalizing and parsing gives the list and the transaction id back |
| LogFormat.OnePut | src/nldb/nldb_transaction_log_buffer.h:39-122 | byte by byte, the message of a transaction with one short put: transaction id, total size, table, type, lengths, key, value, each in its place |
| LogFormat.ReplayedExactly | src/nldb/nldb_transaction_log_redoer.h:83-85 | the value replay passes on is the logged one exactly if that has two bytes |
| Replay.EffectsAt | src/nldb/nldb.cpp:1031-1090 | after any list of puts and deletes, the last one about a key decides: a put gives its value, a delete makes the key absent, and a key that none is about is as it was |
| Replay.RedoKeys | src/nldb/nldb_transaction_log_redoer.h:73-111 | on tables with the master's keys, replay of a list of records succeeds exactly if each of its deletes finds its key on the master, and then ends with the master's keys |
| Replay.RedoMirrors | src/nldb/nldb_transaction_log_redoer.h:73-111 | the same on mirrored tables, which stay mirrored: the same keys, and of each value the two bytes that replay stores |
| Replay.RedoStops | src/nldb/nldb_transaction_log_buffer.h:199-210 | a replay that fails has done what the records before the first refused delete do, and no more |
| Replay.ReplayedReads | src/nldb/nldb_transaction_log_redoer.h:83-85 | these two bytes are the ones that lie in the message, padding included |
| Replay.MirrorExact | src/nldb/nldb_transaction_log_redoer.h:83-85 | a mirrored value is the master's exactly if that has two bytes |
| Transactions.SlotIsClear | src/nldb/nldb.cpp:420-441 | at begin the slot obtained, new or reused, has no records, is not finalized and has no transaction id |
| Transactions.InWindow | src/nldb/nldb.cpp:212-225 | what is published or granted lies within one buffer of what is yet to be sent, so each slot stands for one sequence |
| Transactions.BeginInv | src/nldb/nldb.cpp:420-441 | begin keeps the invariant, that is, its assertions hold |
| Transactions.ObtainInv | src/nldb/nldb.cpp:212-225 | so does the return from waiting for a slot |
| Transactions.WriteInv | src/nldb/nldb.cpp:1032-1048 | a logged write appends to the open transaction's slot and to no other |
| Transactions.EndInv | src/nldb/nldb.cpp:443-463 | ending, by commit or abort, publishes the records, or none, or clears the slot if there is no replicator |
| Transactions.SendInv | src/nldb/nldb_txevent.h:147-193 | the publisher thread finds the next finalized transaction under its id and leaves the slot clear |
| Replication.DoInv | src/nldb/nldb.cpp:420-516 | every client call and every step of publisher thread and slave keeps the invariant of the whole system; no assertion fails but, if a replay has failed, the slave thread's that it has not |
| Replication.RunInv | src/nldb/nldb.cpp:420-516 | so does every run |
| Replication.ReplayedInv | src/nldb/nldb_transaction_log_buffer.h:163-217 | a slave's own transaction does to its tables what replay of the records says, has room for them in its own log, logs them if replay succeeds and nothing if it aborts, and ends clear |
| Agreement.FailsExactly | src/nldb/nldb_repl_slave_thread.cpp:131-140 | in every run, with or without a replicator, for any ring size, an assertion fails exactly if the slave has received a committed transaction that deletes a key which the transactions committed before it have not left; it is the slave thread's, and none of the others modelled here ever fails |
| Agreement.StoppedExactly | src/nldb/nldb_transaction_log_buffer.h:203-208 | exactly then a replay has taken the abort path and the slave has stopped |
| Agreement.OkExactly | src/nldb/nldb_transaction_log_buffer.h:203-208 | of each message received: its replay fails exactly if it carries such a transaction |
| Agreement.AbortStopsSlave | src/nldb/nldb_repl_slave_thread.cpp:131-140 | for any put, an abort, then a delete of the same key and a commit, there is a run in which the slave's assertion fails |
| Agreement.RunNeverFails | src/nldb/nldb.cpp:420-516 | no assertion fails in a run whose committed transactions delete only what committed ones have left |
| Agreement.BeginsClear | src/nldb/nldb.cpp:420-441 | in every run, every begin takes a clear slot |
| Agreement.IdsAreConsecutive | src/nldb/nldb_txevent.h:157-172 | in every run the messages sent are transactions 1, 2, 3, ..., an aborted one without records, the slave applies them in that order, and its own ids are the master's |
| Agreement.OneMessage | src/nldb/nldb_transaction_log_buffer.h:196-217 | one message from equal keys is replayed without failure and leaves equal keys exactly if the transaction committed or changed no keys |
| Agreement.InStepIff | src/nldb/nldb.cpp:450-463 | the slave has the master's keys after each message, and no replay fails, exactly if aborted transactions have left the keys as they found them |
| Agreement.RunAgrees | src/nldb/nldb.cpp:450-463 | this holds of every run, and the slave then never stops and no assertion fails |
| Agreement.Follows | src/nldb/nldb_transaction_log_buffer.h:163-217 | whatever aborted transactions have done to the master, while no replay has failed the slave mirrors the tables that the committed transactions alone would have made |
| Agreement.MirrorsRun | src/nldb/nldb_transaction_log_redoer.h:73-111 | if aborts leave no writes behind, no replay fails and the slave mirrors the master after every message |
| Agreement.CaughtUp | src/nldb/nldb_transaction_log_redoer.h:83-85 | in every run, when all is applied and the slave has not stopped, it has the keys the committed transactions have left, and of each the committed value exactly if that has two bytes |
| Agreement.CaughtUpMaster | src/nldb/nldb_transaction_log_redoer.h:83-85 | if aborts leave no writes behind, these are the master's keys and values |
| Agreement.WaitedFor | src/nldb/nldb.cpp:242-251 | in every run, once the publisher's sequence has reached the cursor read earlier, every transaction ended at that time has been sent with its records |
| Agreement.AbortDiverges | src/nldb/nldb.cpp:450-463 | after any put and an abort there is a run in which the slave is up to date and lacks the key that the master kept |
| Clients.RunIs | src/nldb/nldb.cpp:1031-1090 | in every run, from the calls alone: each transaction ended has the puts called in it and the deletes whose key was there by then, a key is stored exactly if the last call about it is a put, with that put's value, and each send and receive carries one transaction |
| Clients.SlotsAndMessages | src/nldb/nldb.cpp:420-516 | in every run the open transaction's slot has its records and its id and is not finalized, and the i-th message is the i-th transaction ended, or empty if that aborted |
| Clients.RoomIsFit | src/nldb/nldb_transaction_log_buffer.h:99-101 | a record may be written exactly if the log with it still fits a message |
| Clients.LogsFit | src/nldb/nldb_transaction_log_buffer.h:93-240 | in every run each transaction's log fits a message, so the byte format gives it back |
| Clients.SlaveIs | src/nldb/nldb_transaction_log_redoer.h:73-111 | in every run without a failed replay, a key is on the slave exactly if the last record about it in the committed transactions received is a put, and its value is what replay stores of that put's |
| Clients.StoppedSlaveIs | src/nldb/nldb_transaction_log_buffer.h:203-208 | a slave that has stopped has, besides, just the records of the last transaction before its first delete of a missing key |
| CatchingUp.CatchesUp | src/nldb/nldb_txevent.h:147-193 | from every reachable state the threads alone can come to have sent and applied all that has ended, unless a replay fails |
| CatchingUp.BeginReturns | src/nldb/nldb.cpp:212-225 | a begin that waits for a slot can always come to return, with an empty log |
| CatchingUp.Begins | src/nldb/nldb.cpp:420-441 | from every reachable state with no transaction open a client can begin one |
| CatchingUp.AnyTransaction | src/nldb/nldb.cpp:420-516 | and it can make any calls that fit a message, and commit or abort: the transaction ended is that of its successful calls, and so is the effect on the tables |
| Assertions.CallFlags | src/nldb/nldb.cpp:420-497 | in any state, `failed` is set by a call exactly if one of its assertions does not hold: a begin's, those of the slot it gets, of a record's room, and of the transaction id at the end |
| Assertions.ThreadFlags | src/nldb/nldb_txevent.h:155-172 | the same of the publisher thread's and the slave's |
| Assertions.AssertionsHold | src/nldb/nldb.cpp:420-516 | in every run all of them hold at every step, but for the slave's when a replay has failed |

## Left out

- LevelDB and TokyoCabinet tables, and the meta table: wrappers over libraries that are not part of this model.
- Crossroads sockets: sending is an atomic copy onto a link that loses and reorders nothing.
- Threads starting and stopping, `Halt`, alerts and exceptions in handlers; timed waits and the blocking, sleeping and yielding wait strategies.
- Memory ordering: steps interleave sequentially. What a side does to a slot that it owns alone is one step.
- The multi-threaded claim strategy, claims of arbitrary sequences, several databases or replicators, and gating sequences set after the first claim.
- A claim made before the previous one is published; nldb publishes each before the next.
- Claims of more than the ring's size: they can never be granted; batch descriptors cut the size down (src/disruptor--/disruptor/sequencer.h:86-88).
- `merge_with`, `internal_node_t::del` and freeing nodes: not used by the tree's operations.
- The width of counts: they are mathematical integers, while the program sums them in `int` (src/nldb/nldb_array_tree.h:379).
- The content of fresh arenas: modelled as zeros in the tree; nothing proved depends on it.
- Value packing and the value pool: values are plain pointers in the tree, byte strings in replication. Values are not empty; an empty one cannot be read back (src/nldb/nldb_plugin_array_tree.cpp:241).
- The check of key lengths when a table is first used: all keys of a table have one length.
- Opening tables on a slave and its cache of open tables: the tables exist, with ids from 1.
- Cursors are used on a tree that is not changed meanwhile.
- How far counts fall behind after deletes of absent keys: later splits recount some nodes, so it depends on the run. What is promised for inexact counts is that none is too large.
- TakeInRoot: states the assertion at src/nldb/nldb_array_tree.h:862 for exact counts only. After deletes of absent keys it can fail; whether it does depends on how far the counts lag.
- Transactions and replication are value-level state machines rather than objects, since their steps interleave; the log buffer's bytes are in a class of their own, and the machine's slots are what its `View` says.
- Log records that do not fit a message: the program stops there, and the model's clients stay within the room.
