# An in-memory key-value server: verified model

This project models the server of the repository: its hand-written data structures, the store built
on them, the command handlers, the wire protocol and the event loop, and proves what they are for.

- **Sorted sets.** `TreeShape` gives the AVL algorithms as functions on trees and contexts (what a
  rotation, a fix, a deletion does to the shape, the in-order sequence and the balance). `Avl` and
  `AvlSearch` are the pointer programs, with parent links and cached heights and counts, each proved to
  compute those functions. `AvlNaive` is the naive offset walk of the source's comment, proved equal
  to the fast one. `HashTable` and `HashMap` are the chained tables and their progressive rehashing.
  `ZSet` keeps both indexes over one set of nodes and behaves as a finite map from names to scores;
  `PairOrder` says, without any tree, what its order means.
- **The store.** `TtlHeap` is the timer heap with back-references. `Store` owns the entries: each is in
  exactly one of the key index, the workers' queue, a worker's hands, or the list of the freed.
  `ThreadPool` is the pool as a step system over all interleavings, and `PoolOwners` shows that whatever the
  interleaving its steps are those of the record of who owns which entry.
- **Commands and wire.** `Abstract` says what every command means on a map from keys to values with
  optional deadlines. `Commands`, `Query`, `Exec` and `Dispatch` are the handlers on the real structures,
  proved to answer exactly so. `Laws` and `Lifetimes` say what that means for the bytes of the commands: what one
  command makes of a key shows in the replies to the next, deadlines count down, a deleted or expired entry goes to
  the workers when its set is large (`Ledgers`), and other keys are left alone. `Bits`, `Requests`, `Responses`,
  `Buffers`, `Output` and `Client` are the two codecs, the sliding buffer, the framing and the client's reader;
  `Incoming` is the memory of an input buffer over any sequence of reads, and `Wire` gives the messages byte by byte.
- **The server.** `Conn` is a connection's state machine and `IdleList` the list of the idle timers. `World`
  describes the server as a value (the abstract store, the owners of the entries, what has been read, answered
  and written on every connection, the list of connections by last activity) and says what each event makes of
  it: a connection accepted, a poll report, the timers, a worker that takes or finishes a task. `Server` is
  the event loop over any number of connections, proved to go through exactly such a history for every sequence
  of events. `Histories` proves what holds in every world of every history, and `Closings` exactly when a connection
  is closed.

Conventions. Pointers are object references and `container_of` is the identity; an embedded node knows its
owner. The state of the pointers is described by snapshots (maps from nodes to their links), so that what the
programs do to memory is stated by lemmas about values. The ghost fields named `core`, `zparts`, `Repr` and `parts`
are footprints. A `size_t` of -1 is -1. The clock, the results of `read` and `write`, and what
`strtod` and `strtoll` make of a string are parameters. A score is its position in the order of
the doubles, from which its 64 bits are computed; `Bits.ScoresAreInOrder` ties the two together.

Where the code stops the process on an assertion that a client can trigger (`pexpire` with a negative
time to live), the model returns `ok == false`, and says exactly when.

Findings. `buf_append` keeps the gap at the front when it grows, so the bytes stay inside the memory exactly under
`Buffers.RoomFor`, a condition on capacity, gap, size and length before the call. It holds whenever the data is at the
front, as it always is for an append to an output buffer, or the append is no longer than the capacity; for an
input buffer `Incoming.ReadAll` says for which reads it holds, `Incoming.WaitingClientsFit` that it does for clients that
wait for each reply, and `Incoming.InputGap` are two reads for which it does not. `send_req` computes the size in 32
bits: it sends exactly the requests all of whose prefixes have an acceptable size in 32 bits, its header is right
exactly when the payload is within the limit, and for a string of 2^32 - 4 bytes it is not (`Requests.LongStringWraps`).
Counts and lengths are written through 32 bits as well, but a response in which one wraps exceeds the message limit and
is replaced by an error, so no client sees one. A time to live added to the clock stays within what its `pttl` answer
can hold.

## Model

| member | source | states |
|---|---|---|
| Names.CmpIsOrder | src/zset.cpp:33-57 | the (score, name) comparison is a strict total order, zero exactly on equal pairs |
| Names.LessMeans | src/zset.cpp:33-57 | the lower score comes first; at equal scores the first differing byte decides, and then the shorter name |
| Names.ComputeHash | src/server_utils.cpp:31-37 | the 32-bit wrapping hash loop computes a function of the name |
| Names.HashMeans | src/server_utils.cpp:31-37 | its start value, what one more byte does to it, and one hash as a number |
| TreeShape.FixedNodeBalances | src/avl.cpp:163-206 | fixing a node whose subtrees are balanced and differ by at most 2 balances it, with a height within 1 of the old one |
| TreeShape.FixedNodeKeepsOrder | src/avl.cpp:44-92 | rotations and double rotations keep the in-order sequence |
| TreeShape.RebuildBalances | src/avl.cpp:181-212 | fixing from a changed subtree up to the root balances the whole tree, for a change of height by at most 1 |
| TreeShape.RebuildKeepsOrder | src/avl.cpp:181-212 | the walk to the root keeps the in-order sequence |
| TreeShape.BalancedIsBig | src/avl.cpp:29-34 | a balanced tree of height h has at least Fib(h+2) - 1 nodes |
| TreeShape.HeightIsLogarithmic | src/avl.cpp:29-34 | as many steps as the height of a balanced tree, or fewer, are logarithmic in the number of its nodes |
| TreeShape.LogarithmicMeansLog | src/avl.cpp:29-34 | logarithmic steps in n nodes: 2 to the power of half the steps is at most n + 1 |
| TreeShape.PlugHeight | src/avl.cpp:415-439 | the depth of a place and the height below it add up to at most the height of the whole, balanced or not |
| TreeShape.HoleDepthPlug | src/avl.cpp:274-286 | the depth of the place where a node goes in depends only on its position in the order |
| TreeShape.DepthAtPlug | src/avl.cpp:415-439 | so does the depth of a node |
| TreeShape.MeetPlug | src/avl.cpp:357-413 | two nodes below a place meet below it, as deep under it as in its own subtree |
| TreeShape.MeetAbove | src/avl.cpp:357-413 | a node below a place and one elsewhere meet above it |
| TreeShape.DeleteSpec | src/avl.cpp:214-268 | deletion, with one child or two, removes exactly the given node from the in-order sequence and keeps balance |
| TreeShape.CutSuccessorNodes | src/avl.cpp:242-249 | detaching the successor leaves the other nodes, the deleted one among them wherever rebalancing has put it |
| Avl.Update | src/avl.cpp:29-34 | height and count from the children |
| Avl.RotateLeft | src/avl.cpp:44-67 | all links, heights and counts that a left rotation writes, and no others |
| Avl.RotateRight | src/avl.cpp:69-92 | all links, heights and counts that a right rotation writes, and no others |
| Avl.RotateLeftShape | src/avl.cpp:44-67 | what a left rotation writes are the links of the rotated tree, exact throughout |
| Avl.FixLeft | src/avl.cpp:163-170 | a left side taller by 2 is fixed, single or double rotation, parent and child links consistent |
| Avl.FixRight | src/avl.cpp:172-179 | a right side taller by 2 is fixed |
| Avl.Fix | src/avl.cpp:181-212 | the walk to the root ties the pointers to the rebuilt tree, returns the true root, and no height or count stays stale |
| Avl.DelEasy | src/avl.cpp:214-233 | unlinking a node with at most one child and rebalancing |
| Avl.CopyNode | src/avl.cpp:251-258 | the successor takes over every link of the deleted node, and the children's parent links follow |
| Avl.Substitute | src/avl.cpp:251-267 | the successor stands in the deleted node's place, at the root or below the right parent |
| Avl.Del | src/avl.cpp:235-268 | on any balanced tree: the node is gone from the in-order sequence, the rest is unchanged, balance, heights, counts, links and the returned root are right |
| AvlSearch.FindPlace | src/avl.cpp:274-286 | the search ends at the place where the pair belongs, after as many steps as that place is deep, or one step further at a node with an equal pair; at most height-many |
| AvlSearch.Narrow | src/avl.cpp:277-286 | one comparison decides for a whole half of the subtree |
| AvlSearch.Insert | src/avl.cpp:270-294 | the node is in the in-order sequence at its sorted place, or nothing changes when its pair is a duplicate; as many steps as the place is deep |
| AvlSearch.Rank | src/avl.cpp:415-439 | climbing counts exactly the nodes before the node, in as many steps as it is deep, fewer than the height |
| AvlSearch.Offset | src/avl.cpp:357-413 | the node at position rank + offset, null exactly outside the tree; the moves are the path between the two nodes, or that to the root; at most twice height-many |
| AvlSearch.WalkUp | src/avl.cpp:397-409 | going to the parent keeps the rank difference exact, and the paths to both nodes meet above; without a parent the target does not exist |
| AvlSearch.WalkRight | src/avl.cpp:387-391 | going right keeps the rank difference exact and the target below |
| AvlSearch.WalkLeft | src/avl.cpp:392-396 | going left keeps the rank difference exact and the target below |
| AvlSearch.SeekGe | src/zset.cpp:150-166 | the first node not less than the pair, in as many steps as the place of the pair is deep, at most height-many |
| AvlSearch.SeekNarrow | src/zset.cpp:155-164 | one comparison keeps all nodes before the hole less and none after it |
| AvlNaive.Successor | src/avl.cpp:310-331 | the next node in order, or null at the end |
| AvlNaive.Predecessor | src/avl.cpp:333-354 | the previous node in order, or null at the start |
| AvlNaive.OffsetMatchesNaive | src/avl.cpp:296-413 | the fast and the step-by-step walk both return the node at position + offset of the in-order sequence, or null outside it |
| AvlDispose.Dispose | src/zset.cpp:182-191 | the nodes are freed in post-order |
| AvlDispose.PostOrderOnce | src/zset.cpp:182-191 | every node is freed exactly once |
| AvlDispose.ChildrenFirst | src/zset.cpp:187-190 | a node is freed after every node below it |
| TreeIndex.RemoveNode | src/avl.cpp:235-268 | the index without a node is sorted and balanced over the others |
| TreeIndex.AddNode | src/avl.cpp:270-294 | a node whose name is its own always goes in: the duplicate branch is not taken |
| TreeIndex.Rescore | src/zset.cpp:67-77 | detach, change the score, reinsert: the same nodes, sorted again |
| HashTable.MaskIsRemainder | src/hashtable.cpp:15-19 | masking with a power of two less one selects the remainder |
| HashTable.PushBucketed | src/hashtable.cpp:22-29 | inserting at the front of a chain keeps every node in its own slot, once |
| HashTable.CutChained | src/hashtable.cpp:52-58 | bypassing one link leaves the rest of the chain as it was |
| HashTable.HTab.Insert | src/hashtable.cpp:22-29 | one node more, at the front of its slot |
| HashTable.HTab.Lookup | src/hashtable.cpp:32-48 | a matching node and the link that leads to it, or null when nothing in the table matches |
| HashTable.HTab.Detach | src/hashtable.cpp:52-58 | exactly the node that the link leads to is gone |
| HashTable.HTab.ForEach | src/hashtable.cpp:159-170 | the nodes are visited in one order, each once, up to the first that the callback stops at; all of them if it never does |
| HashMap.HMap.TriggerRehash | src/hashtable.cpp:67-73 | fires only when no migration is under way and the size equals the threshold, and begins at slot 0 with nothing skipped |
| HashMap.HMap.Migrate | src/hashtable.cpp:79-94 | moves min(128, older.size) keys, stays inside the older table, and skips as many slots as the position advances |
| HashMap.HMap.NotDrained | src/hashtable.cpp:82-89 | while keys are left the position is a slot of the older table |
| HashMap.HMap.ProgressiveRehash | src/hashtable.cpp:79-102 | the set of nodes is unchanged; the skips are added up; an emptied older table is dropped; the load bound is paid back |
| HashMap.HMap.SkipBound | src/hashtable.cpp:79-94 | in every valid state the empty slots skipped in the migration under way are at most the older slots |
| HashMap.HMap.Insert | src/hashtable.cpp:104-123 | one node more, across both tables, whatever is being migrated |
| HashMap.HMap.Lookup | src/hashtable.cpp:125-134 | finds a matching node in either table, or there is none; the set is unchanged, and a batch of min(128, older.size) keys has moved |
| HashMap.HMap.Delete | src/hashtable.cpp:136-151 | removes a matching node from whichever table holds it, or there is none; a batch of keys has moved before that |
| HashMap.HMap.ForEach | src/hashtable.cpp:172-178 | the nodes of both tables in one order, each once, as many as the size says, up to the first that the callback stops at |
| HashMap.HMap.LoadBound | src/hashtable.cpp:63-123 | between operations the keys stay below 8 per slot of the newer table |
| HashMap.PaidBoundsLoad | src/hashtable.cpp:63-123 | with n old slots at most 8n + n/16 keys before the older table is gone |
| HashMap.BatchPays | src/hashtable.cpp:75-94 | one batch pays for the key added before it, and the threshold is out of reach meanwhile |
| KeyIndex.KeyedCount | src/hashtable.cpp:153-156 | as many hash nodes as keys |
| ZSets.TreeListsScores | src/zset.cpp:33-57 | the tree's in-order sequence is the one sorted listing of the name-to-score map |
| ZSets.ZSet.Lookup | src/zset.cpp:117-130 | the node of a name or null; without a root the shortcut is right |
| ZSets.ZSet.EmptyIndex | src/zset.cpp:120-121 | without a root there is no name in the hash map either |
| ZSets.ZSet.Update | src/zset.cpp:66-77 | only this name's score changes, both indexes agree afterwards; as many search steps as the new place is deep in the tree without the node, logarithmically many |
| ZSets.ZSet.Insert | src/zset.cpp:79-97 | the map gets name := score; true exactly when the name is new; the exact number of search steps, logarithmic in the number of names |
| ZSets.ZSet.HashRemove | src/zset.cpp:135-141 | the hash node removed is always the given node's own |
| ZSets.ZSet.Delete | src/zset.cpp:132-148 | the name is gone from both indexes, nothing else changes |
| ZSets.ZSet.Clear | src/zset.cpp:193-198 | the empty set; every node freed exactly once |
| ZSets.ZSet.Rank | src/zset.cpp:175-180 | the number of pairs less than the node's own, in as many steps as the node is deep, logarithmically many |
| ZSets.ZSet.SeekGe | src/zset.cpp:150-166 | the pair at the lower bound in the sorted listing, null exactly when all are less, in as many steps as that place is deep, logarithmically many |
| ZSets.ZSet.Offset | src/zset.cpp:168-173 | the pair at rank + offset in the sorted listing, null exactly outside it, in as many moves as the path between the nodes is long, twice logarithmically many whatever the offset |
| ZSets.ZSet.SizeIsCount | src/hashtable.cpp:153-156 | the hash map's size is the number of names |
| PairOrder.OrderedLists | src/zset.cpp:33-57 | a listing of any finite map in strictly increasing order, each pair once |
| PairOrder.ListingUnique | src/zset.cpp:33-57 | a map has only one such listing |
| PairOrder.BelowIsPosition | src/zset.cpp:150-180 | a pair's place in the listing is the number of smaller pairs |
| TtlHeap.OneDirection | src/heap.cpp:92-98 | an arbitrary replaced value is out of place in at most one direction, the one sift takes |
| TtlHeap.StepUp | src/heap.cpp:46-51 | one swap with the parent leaves only the moved item possibly too small |
| TtlHeap.StepDown | src/heap.cpp:60-85 | one swap with the smaller child leaves only the moved item possibly too large |
| TtlHeap.RootIsLeast | src/heap.cpp:13-16 | no item is earlier than the root |
| TtlHeap.Heap.SiftUp | src/heap.cpp:42-54 | a min-heap with exact back-references and the same items |
| TtlHeap.Heap.SiftDown | src/heap.cpp:56-89 | a min-heap with exact back-references and the same items |
| TtlHeap.Heap.SmallestKid | src/heap.cpp:62-76 | the smallest child below the value, or none |
| TtlHeap.Heap.Delete | src/heap.cpp:100-113 | exactly the entry at the position loses its deadline; min-heap and back-references kept |
| TtlHeap.Heap.Upsert | src/heap.cpp:115-131 | at any position: the item there gives way to the new one, min-heap and back-references kept; at -1 there is one item more |
| Stores.Store.Find | src/exec.cpp:116-128 | the entry of a key or null, while keys migrate unseen |
| Stores.Store.Add | src/state.cpp:9-14 | a new entry under a new key, every other value, deadline and owner unchanged |
| Stores.Store.ZInsert | src/zset.cpp:79-97 | changes this key's set only, all other entries' sets untouched |
| Stores.Store.SetTtl | src/state.cpp:16-21 | the entry's own deadline is set |
| Stores.Store.RemoveTtl | src/state.cpp:23-29 | the entry's own deadline is removed |
| Stores.Store.DbRemoveEntry | src/server.cpp:347-349 | deletion by identity always finds the entry, so the assertion holds |
| Stores.Store.EntryDel | src/state.cpp:43-57 | the timer goes; a set of more than 500 pairs is queued, anything else is destroyed at once; nothing is lost or freed twice |
| Stores.Store.Destroy | src/state.cpp:31-36 | the entry moves from the live to the freed, no other is affected |
| Stores.Store.Del | src/exec.cpp:84-99 | the key goes with its value and its deadline; its entry, and no other, leaves the index, for the queue when its value was a set of more than 500 pairs and to be freed otherwise |
| Stores.Store.WorkerTake | src/thread_pool.cpp:34-37 | the first queued entry passes to a worker, and nothing else has another owner |
| Stores.Store.WorkerFinish | src/state.cpp:38-41 | a worker destroys any entry in its hands, writing only to it; the store's value is unchanged |
| Stores.Store.Earliest | src/server.cpp:345-347 | the heap's root is an entry of the store with the earliest deadline of all |
| Stores.Store.ExpireEntries | src/server.cpp:341-358 | exactly min(2000, number expired) keys go, none unexpired, none later than one that stays; the entries of the large sets among them are queued, the others freed |
| Stores.Store.AllGone | src/server.cpp:345-357 | earliest first and stopping at the limit or at an unexpired root gives that number |
| Stores.Store.Partition | src/state.cpp:31-57 | in every valid state every entry ever created is in exactly one place, freed at most once, and the index has exactly one for every key |
| Ledgers.HandedMore | src/state.cpp:43-57 | one more command in a run: the keys of the entries it queues and of those it frees, in order, are those it deletes, large and not |
| Lifetimes.DelHandsOver | src/exec.cpp:94-97 | del of a set of more than 500 pairs puts its entry at the end of the queue; any other entry is freed at once |
| Lifetimes.ExpiryHandsOver | src/server.cpp:343-352 | so do the timers with the entry of a key they take |
| Lifetimes.DelIsQueued | src/exec.cpp:94-97 | in any run of commands, del of a large set puts its key among those left to the workers |
| Stores.Store.VisitKeys | src/exec.cpp:109-114 | every key once, as many as the size announced |
| ThreadPool.NoneLostWorker | src/thread_pool.cpp:6-42 | a worker's step keeps: while a worker waits, queue length <= workers on their way + pending signals |
| ThreadPool.NoneLostOther | src/thread_pool.cpp:58-65 | the main thread's steps and spurious wakeups keep it too |
| ThreadPool.FifoWorker | src/thread_pool.cpp:34-41 | tasks are popped in order, once, and each is in hand or finished |
| ThreadPool.AlwaysInv | src/thread_pool.cpp:6-65 | over every interleaving: mutual exclusion, first in first out, no lost wakeup |
| ThreadPool.StepsRunOut | src/thread_pool.cpp:6-65 | left alone the pool comes to rest: every other step lowers a measure |
| ThreadPool.AtRest | src/thread_pool.cpp:6-65 | no thread is ever stuck except workers waiting |
| ThreadPool.AllTasksRun | src/thread_pool.cpp:6-65 | at rest every task ever queued has been run exactly once |
| PoolOwners.StepRefines | src/thread_pool.cpp:6-65 | every step of the pool is a step of the ledger of entries: nothing, an entry that leaves the store for the queue, one taken by a worker, or one destroyed |
| PoolOwners.PoolAccounts | src/thread_pool.cpp:34-41 | in every state of the pool every entry has exactly one owner and is destroyed at most once |
| PoolOwners.RunRefines | src/thread_pool.cpp:6-65 | over every run and interleaving: the ledger steps, from all entries stored, with every entry owned once all the time |
| Abstract.CmdIndex | src/exec.cpp:367-375 | the first table entry with the command's name, or that there is none |
| Commands.Seek | src/exec.cpp:123-128 | get_entry as an operation on the store's value |
| Commands.RankOf | src/exec.cpp:214-216 | the number of smaller pairs, or nothing for an unknown name |
| Query.EmitFrom | src/exec.cpp:252-262 | the output loop writes the first ceil(limit/2) pairs from the start, and the right item count |
| Query.SeekOffset | src/exec.cpp:248-250 | the node at lower bound + offset of the listing, null when the seek or the move finds nothing |
| Query.EmitWindow | src/exec.cpp:248-262 | the contiguous slice of the listing at lower bound + offset; empty when the seek or the move finds nothing |
| Exec.ExecGet | src/exec.cpp:38-53 | reply and store as the abstract get |
| Exec.ExecSet | src/exec.cpp:58-82 | reply and store as the abstract set, an existing deadline kept |
| Exec.ExecDel | src/exec.cpp:87-99 | reply and store as the abstract del |
| Exec.ExecKeys | src/exec.cpp:101-114 | an array of all keys, each once, with their exact count |
| Exec.ExecZAdd | src/exec.cpp:133-161 | reply and store as the abstract zadd |
| Exec.ExecZRem | src/exec.cpp:166-181 | reply and store as the abstract zrem, an emptied set kept |
| Exec.ExecZScore | src/exec.cpp:186-199 | reply as the abstract zscore |
| Exec.ExecZRank | src/exec.cpp:204-217 | reply as the abstract zrank: the number of smaller pairs |
| Exec.ExecZQuery | src/exec.cpp:224-263 | reply as the abstract zquery, in every error and limit case |
| Exec.ExecPExpire | src/exec.cpp:268-284 | reply and store as the abstract pexpire |
| Exec.ExecPersist | src/exec.cpp:289-300 | reply and store as the abstract persist |
| Exec.ExecPTtl | src/exec.cpp:306-323 | reply as the abstract pttl |
| Lifetimes.PExpireAnswer | src/exec.cpp:268-284 | the deadline is the time to live after now; 1 when the key is there, 0 and nothing changed when it is not |
| Lifetimes.TtlCountsDown | src/state.cpp:16-21 | after pexpire key t at time n, pttl at n2 answers max(0, t - (n2 - n)) while nothing else happens to the key, and it is overdue exactly when n2 > n + t |
| Lifetimes.PersistStopsTheClock | src/exec.cpp:289-300 | after persist pttl answers -1, and the key is never overdue; 1 exactly when a deadline was taken away |
| Lifetimes.PTtlAnswer | src/exec.cpp:306-323 | -2 without the key, -1 without a deadline, else what is left |
| Lifetimes.ExpiryTakes | src/server.cpp:341-358 | one pass takes overdue keys only, all of at most 2000, else 2000 of the earliest, and leaves every other key alone |
| Lifetimes.HistoryLeavesAlone | src/server.cpp:341-358 | over every history a key keeps value and deadline while no command writes to it and it is not overdue when the timers look |
| Laws.GetAfterSet | src/exec.cpp:38-82 | get answers what set stored, the deadline stays, a sorted set is refused |
| Laws.GoneAfterDel | src/exec.cpp:84-99 | del answers whether the key was there; then get answers nil and del 0 |
| Laws.KeysAnswer | src/exec.cpp:109-114 | the array has every key exactly once |
| Laws.ZScoreAfterZAdd | src/exec.cpp:133-199 | zscore answers the score that zadd gave, and the other names keep theirs; 1 exactly for a new name |
| Laws.ZScoreAfterZRem | src/exec.cpp:166-199 | after zrem zscore answers nil for the name, and the key stays; 1 exactly when the name was there |
| Laws.ZRankAnswer | src/exec.cpp:204-217 | the number of pairs with a lower score, or the same score and a name before it in the dictionary |
| Laws.LowerScoreLowerRank | src/zset.cpp:39-42 | a lower score has a lower rank |
| Laws.ZQueryAnswer | src/exec.cpp:219-263 | names and scores of the pairs of ranks lower bound + offset onwards, half of limit of them or as many as there are |
| Laws.WindowUnique | src/exec.cpp:219-263 | there is only one such sequence of pairs |
| Laws.WindowScores | src/exec.cpp:219-263 | its scores never decrease, and none is below the sought one when the offset is not negative |
| Laws.OtherKeysStay | src/exec.cpp:38-323 | a command changes at most the key it names, and reading commands change nothing |
| Laws.WrongType | src/exec.cpp:152-242 | sorted-set commands on a string answer error 3 and change nothing |
| Laws.WrongNumber | src/exec.cpp:136-272 | what is no number where one is expected is answered with error 4 and changes nothing |
| Dispatch.FindCmd | src/exec.cpp:364-375 | the linear scan finds the table entry |
| Dispatch.ExecCmd | src/exec.cpp:355-390 | any command on any store: exactly one response appended, the abstract store's; false exactly when the ttl assertion stops the process |
| Laws.AnswersMeant | src/exec.cpp:338-390 | every command, by the literal bytes of its name, takes its arguments in this order |
| Laws.Improper | src/exec.cpp:358-387 | any other name or number of strings is answered with error 1 and changes nothing |
| Laws.AbortsMeans | src/exec.cpp:273 | the process is stopped exactly by pexpire with a negative time to live |
| Bits.NumberOfLittle | protocol.md:3 | decoding k little-endian bytes gives back any number they can hold |
| Bits.LittleOfNumber | protocol.md:3 | and encoding gives back any bytes |
| Bits.U32RoundTrip | src/server_utils.cpp:73-76 | a number through 32 bits comes back modulo 2^32 |
| Bits.U64RoundTrip | src/server_utils.cpp:78-86 | an int64 through 64 bits comes back |
| Bits.LittleAt | protocol.md:3 | byte i of a number is n / 256^i mod 256: the lowest comes first |
| Bits.NumberIsSum | protocol.md:3 | the number that bytes spell is their sum, byte i times 256^i |
| Bits.ScoreBitsMean | src/server_utils.cpp:83-86 | the highest bit of a score is its sign, the others are its magnitude |
| Bits.ScoresAreInOrder | src/zset.cpp:39-42 | scores are in the order of the doubles that their 64 bits encode, exponent and fraction |
| Wire.ResponseBytes | protocol.md:24-64 | every kind of response in bytes: its tag, lengths and numbers with the lowest byte first |
| Wire.RequestBytes | protocol.md:14-20 | a request in bytes: the number of strings and each string after its length |
| Wire.FrameBytes | protocol.md:7-10 | a message in bytes: its length in four bytes, lowest first, and the payload |
| Wire.SentBytes | src/client.cpp:29-42 | the header that send_req writes has the size's lowest byte first |
| Wire.FirstRequestMeans | src/server.cpp:253-277 | which of bad, incomplete and complete a request is, by its first four bytes as a number |
| Wire.TooManyStrings | src/server.cpp:197-198 | a request of more than 200000 strings is bad |
| Wire.ReplyMeans | src/server.cpp:236-242 | a response of more than 33554432 bytes is replaced by error 2 |
| Wire.GetOnTheWire | src/server.cpp:251-288 | 20 literal bytes are the request get k |
| Wire.RepliesOnTheWire | src/server_utils.cpp:90-106 | the literal bytes of the replies 1, -1 and nil |
| Requests.PayloadSize | src/client.cpp:20-27 | the loop accepts exactly the requests all of whose prefixes have a size within the limit in 32 bits, and returns the size in 32 bits |
| Requests.SendReq | src/client.cpp:17-43 | bytes are sent exactly for accepted requests: a header with the size in 32 bits, and the payload |
| Requests.HeaderIsRight | src/client.cpp:20-30 | a request is accepted and gets a right header exactly when its payload is within the limit |
| Requests.ShortStringsDoNotWrap | src/client.cpp:20-27 | without a string of 2^32 - 4 bytes less the limit, or longer, a request is accepted exactly when its payload is within the limit |
| Requests.LongStringWraps | src/client.cpp:20-27 | a request of one string of 2^32 - 4 bytes is accepted with a size of 4 |
| Requests.ParseReq | src/server.cpp:186-217 | the cursor loop computes the parse of the payload |
| Requests.ParseOfPayload | src/server.cpp:160-217 | a payload within the limits is parsed back; too many strings are refused |
| Requests.PayloadOfParse | src/server.cpp:160-217 | a payload that parses is the encoding of its command, byte for byte |
| Requests.FirstRequestStable | src/server.cpp:251-277 | the verdict on a request does not change when more bytes follow |
| Requests.ChunkingIsInvisible | src/server.cpp:128-133 | for every split into reads the commands are those of the concatenated bytes up to the first bad frame |
| Requests.SentIsReceived | src/client.cpp:17-43 | what clients send one after another is what the server decodes |
| Responses.PrintRes | src/client.cpp:77-156 | the recursive printer consumes what decoding says, or reports an error |
| Responses.DecodeOfEncode | src/server_utils.cpp:88-144 | any response, followed by anything, is read back whole with its exact length |
| Responses.EncodeInjective | src/server_utils.cpp:88-144 | different responses have different bytes |
| Buffers.FrontFits | src/common.cpp:81-108 | with the data at the front, or an append within the capacity, the bytes always fit |
| Buffers.Buffer.Reserve | src/common.cpp:79-109 | the memory is kept, shifted or grown, with the layout that `MadeRoom` gives; the data is the same, and there is room exactly when the bytes fit |
| Buffers.Buffer.Append | src/common.cpp:73-115 | the bytes go to the end of the contents, inside the memory exactly when they fit; the layout afterwards |
| Buffers.Buffer.Consume | src/common.cpp:117-131 | the contents lose their first bytes; consuming all moves back to the front, consuming less leaves a gap |
| Buffers.RoomIsInside | src/common.cpp:79-114 | the bytes appended end inside the memory exactly when they fit |
| Buffers.CapacityMeans | src/common.cpp:87-107 | the capacity stays while the bytes fit it; else it is doubled, from 64 on, no more often than needed, and the gap stays |
| Buffers.GapMatters | src/common.cpp:93-108 | 4 bytes of data behind a gap of 60 in a memory of 64: 124 bytes more do not fit |
| Incoming.ReadAll | src/server.cpp:128-133 | a new input buffer that reads any chunks and gives up the complete requests after each stays inside its memory if and only if each chunk fits the layout before it, and then holds the rest of the stream |
| Incoming.WaitingClientsFit | src/client.cpp:17-75 | with a client that sends no request before it has the reply to the last, however its bytes are cut, it does |
| Incoming.InputGap | src/server.cpp:128-133 | with 64 bytes, of which the first 60 are a request, and 124 bytes after them it does not |
| Output.OutErr | src/server_utils.cpp:114-121 | tag, code, length and text are appended |
| Output.EndArr | src/server_utils.cpp:139-144 | the count goes into the array's own head |
| Output.ResponseEnd | src/server.cpp:232-247 | one frame with the right header, the too-big error in place of a response over the limit |
| Conns.Conn.TryOneRequest | src/server.cpp:249-289 | one complete request is answered with one frame and removed; a bad one closes the connection; an incomplete one waits |
| Conns.Conn.ServeAll | src/server.cpp:131-133 | all complete requests run in order, each on the store the previous one left |
| Conns.Conn.HandleWrite | src/server.cpp:66-95 | a prefix goes out; reading is wanted again exactly when nothing is left |
| Conns.Conn.HandleChunk | src/server.cpp:128-158 | all that has been read is decoded, the new complete requests run in order on the store and are answered, writing begins; or an assertion stops one of them |
| Conns.Conn.HandleRead | src/server.cpp:100-158 | in all four outcomes of a read the connection and the store become what `Worlds.Reads` says, and the process stops exactly when a new command aborts |
| Conns.Conn.HandlePolled | src/server.cpp:443-457 | the connection and the store become what handling makes of them, for any combination of reported events; both assertions of the event loop hold |
| Worlds.RunAppend | src/server.cpp:131-133 | a run of commands grows by one answered command |
| Client.AnswerFits | src/exec.cpp:355-390 | every answer's numbers fit their fields, after fewer than 2^63 commands |
| Client.AnswerKeepsBound | src/exec.cpp:355-390 | one more command keeps the bound on set sizes and on the time to every deadline that `AnswerFits` needs |
| Client.ReplyIsRead | src/client.cpp:173-180 | a framed reply is within the limit and consumed to the last byte |
| Client.RepliesAreRead | src/client.cpp:45-75 | the client reads exactly the server's replies, in order |
| Servers.Server.OnAccept | src/server.cpp:30-55 | a new connection with empty buffers, the most recent of all; nothing else changes |
| Servers.Server.OnPolled | src/server.cpp:430-458 | one connection that poll reports, if only for a hangup, is touched, handled and kept or closed; the store becomes what its commands make of it; the others stay as they are |
| Servers.Server.OnTimers | src/server.cpp:324-359 | exactly the timed-out connections are closed, and then at most 2000 of the earliest expired keys go |
| Servers.Server.OnWorker | src/thread_pool.cpp:34-41 | a worker takes the first task or finishes one of those in hand; of the server nothing changes but the owner of that entry |
| Servers.Server.OnEvent | src/server.cpp:394-462 | every event does to the server what it does to the abstract server, or stops it exactly when an assertion does |
| Servers.Server.Serve | src/server.cpp:394-462 | over every sequence of events on any number of connections the server goes through a history of the abstract server, and every entry is accounted for in every one of its worlds |
| Servers.RunServer | src/server.cpp:361-462 | the same from the start of the process, and every world on the way is in order |
| Servers.Server.IdleInOrder | src/server.cpp:328-339 | at any time the list holds every connection once, ordered by last activity |
| Histories.EventKeepsOk | src/server.cpp:394-462 | every event keeps a world in order: all commands read are answered, what is written is a prefix of the framed replies, the list of connections is ordered, every reply is well formed |
| Histories.HistoryOk | src/server.cpp:394-462 | every world of every history from one that is in order is in order |
| Histories.IdleTimers | src/server.cpp:328-339 | on an ordered list the timers close exactly the connections idle for the timeout |
| Closings.LeavesExactly | src/server.cpp:66-158 | a connection leaves exactly at end of file, on an error of read, write or poll, when its stream turns bad, or after 60000 ms without activity; then it is gone from map, list and record |
| Closings.ClosedExactly | src/server.cpp:394-462 | the same in every history from the start |
| Closings.ReadClosesExactly | src/server.cpp:100-158 | when reading closes a connection, whatever order keys answers in |
| Closings.AnswersAlike | src/exec.cpp:109-114 | a command leaves one store and replies of one length, in whatever order it lists the keys |
| Closings.ReportMoves | src/server.cpp:66-158 | what a report adds to the bytes received, the replies and the bytes written of a connection that stays |
| Closings.ReportTouches | src/server.cpp:438-441 | any report puts the connection at the end of the idle list, active now |
| Closings.AcceptAdds | src/server.cpp:40-54 | a new connection is empty, the most recent, and changes nothing else |
| Closings.ReportRuns | src/server.cpp:128-133 | reading a chunk runs exactly the commands completed by it, in order, when nothing is left to send; any other report leaves the store alone |
| Closings.TakeMoves | src/thread_pool.cpp:34-37 | a worker takes the first task and changes nothing else |
| Closings.FinishMoves | src/thread_pool.cpp:39-41 | a worker frees one entry it has in hand and changes nothing else |
| Histories.ReceivedIsInput | src/server.cpp:100-129 | what a connection has received are the chunks of its read events, in order |
| Histories.RepliesAreAnswers | src/server.cpp:249-289 | in every history reply k of a connection was given to its command k in one of the events, by a run of that read's commands from the store before the event to the one after it |
| Histories.AnsweredMeans | src/server.cpp:249-289 | such a reply is the abstract store's answer to the command |
| Histories.ClientsReadTheirAnswers | src/client.cpp:45-75 | in every history from the start, a client with nothing outstanding reads exactly the replies of the history, one for each of its commands, as long as at most 2^63 commands have been served |
| Histories.EntriesAreRetained | src/state.cpp:31-57 | between any two worlds of a history no entry is lost, none that has left the index comes back, and the order of freeing is kept |
| IdleList.LinkedInsert | src/list.cpp:26-33 | the four pointer writes of an insertion form the larger circle |
| IdleList.LinkedRemove | src/list.cpp:16-22 | the two pointer writes of a removal form the smaller circle |
| IdleList.Timers.InsertBefore | src/list.cpp:24-33 | the new node stands before the target, all else in order |
| IdleList.Timers.Detach | src/list.cpp:16-22 | the node is gone, all else in order |
| IdleList.Timers.Accept | src/server.cpp:45-47 | a new connection is the most recent, when the clock does not run backwards |
| IdleList.Timers.Touch | src/server.cpp:438-441 | the touched connection is the most recent, the order is kept |
| IdleList.Timers.Close | src/server.cpp:57-63 | any connection leaves the list, the order of the rest is kept |
| IdleList.Timers.ExpireIdle | src/server.cpp:328-339 | exactly the connections idle for the timeout are closed |

## Left out

- Sockets, `poll`, `accept`, `fcntl`, `readn`, `writen`, logging and the interactive client: input and output. A read is a chunk of at most 64 KB, an end or an error; a write takes a prefix or fails.
- `next_timer_ms`: the timeout of `poll` does not decide what is expired, only when it is looked at.
- Conns.Conn.HandleRead: `incoming` is a byte sequence, whose memory is taken to be enough; for which chunks it is enough is `Incoming.ReadAll`, and `Histories.ChunksOf` are the chunks of a connection in a history.
- Widths of heights, node counts, sizes, ranks and deadlines: natural numbers; the 32-bit counts and casts that the source marks as open are assumed to fit. Widths on the wire are modelled.
- Allocation failure and the overflow of a doubled capacity.
- The sign of a zero score: 0 and -0 are one score, as they are to every comparison in the code.
- PoolOwners.RunRefines: the pool's steps are ledger steps, and so are the server's worker events, but the two runs are not interleaved in one: `Store.queue` changes in one step, because between lock and unlock no other thread can see it.
- Stores.Store.WorkerFinish: one step, between two events of the main thread; that it may overlap with an event rests on its writing only to objects that no stored entry reaches, which its frame states.
- Buffers.Buffer.Truncate: the shrinking half of `resize`; the server never grows a buffer through it.
- Responses.PrintRes: what is printed when a text length wraps 32 bits; only the consumed length is modelled then.
- TtlHeap.Heap.Upsert: an entry that already has an item must be upserted at its own position; the code would then hold two items for one back-reference.
- Avl.Del: which node is unlinked is given with the tree it belongs to; a node of another tree is no input of the code.
