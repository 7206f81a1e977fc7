# Verified models of linux_programming

A Dafny model of the exercises in this repository that hold real data
structures or protocols, with proofs of what they promise.

- The hash table of `uthash.h` is modelled in place: one class of elements that
  sit in the application list and in a bucket chain at once, a bucket array that
  doubles in the middle of an add, and the merge sort that relinks the
  application list (`UtHash`, `UtHashSort`). Beside it stand the table as a value
  (`HashSpec`), whole runs of operations on it (`HashRuns`), the theory of the
  sort (`StableSort`), the shift-and-mask arithmetic (`Bits`), and the connection
  of the heap to the runs (`HashReplay`).
- The name-value server of `server.c` is a class over that table, proved to
  refine a map from names to creator and value (`KvSpec`, `KvStore`).
- The concurrent and crash-prone programs are state machines whose steps are the
  shared accesses of the code, with every interleaving a run: the tree with a
  mutex per node (`TreeProtocol`), the unlocked counter (`RacyCounter`), the
  sequence-number server with its backup file (`SeqNumServer`), the signal
  ping-pong (`SignalPingPong`) and the child-limited echo server (`EchoReaper`).
- The allocator (`FirstFitSpec`, `FirstFit`), the process tree
  (`ProcessTreeSpec`, `ProcessTree`) and the sparse copy (`SparseCopy`) are in-place
  programs proved against functions on values.

`dafny verify dfyconfig.toml` takes all files together.

## What the model takes from outside

- The hash function is any function from key bytes to 32-bit words, a comparison
  any function of two elements.
- An element is the enclosing struct and its hash handle as one object; `key` does
  not change while the object lives. Freed memory is not modelled.
- Requests to the server arrive parsed. Keys shorter than 64 and values shorter
  than 256 characters fit their fields; longer ones overflow buffers in `main`.
- `sbrk` is used by nobody else, gives zeroed memory, and fails at a given limit.
- A crash of the sequence-number server may come between any two of its steps; a
  backup write is atomic and succeeds; lengths are positive and the counter does
  not overflow.
- A thread's step in the tree is one mutex operation or one access to a node. Under
  the node's mutex, key and child link are read in one step; a fresh child is
  allocated and linked in one step and its four fields are cleared in one. Records
  of how deep each node was linked, and of where a lookup's key was when it was
  called, are kept for the proofs.
- SIGCHLD is blocked while its handler is active, and a pending signal is one bit.

## Where the code is not what it seems

- `CHILD_COUNT++` in the echo server can be interrupted by the handler. The limit
  holds all the same (`EchoReaper.NeverTooMany`), the count does not
  (`EchoReaper.CountCanDrift`); `EchoReaper.CountExact` says by how much. So the
  loop can end with any number of children up to the limit
  (`EchoReaper.LeavesExactly`).
- The sparse copy never initialises its counter and drops trailing NULs;
  `SparseCopy.FaithfulIff` says exactly when the copy equals the source.
- `expand_mult` is not the plain rounded-up quotient; `HashSpec.MultExact` gives
  its exact value.
- The first node inserted in the process list points to itself until the second
  insert (`ProcessTree.OneProcess`), so a list of exactly one process has no end:
  `ProcessTree.ProcList.WalkEndsIff` and `ProcessTree.ProcList.FindEndsIff` say
  exactly when a walk and a search end. On one process `create_tree` reaches neither
  the end of its loop nor its error exit, so `CreateTree` takes any other number.
- In the allocator, `search_free_space` assigns an undeclared `last` and `free`
  subtracts one byte instead of one header; the model does what the callers expect
  of both, and `size_t` does not overflow.
- In the tree, `add` drops the result of its recursive call and `lookup` does not
  deliver the value; the model speaks of the tree's contents and of the boolean.

## Model

| member | source | states |
|---|---|---|
| `StableSort.MergeSortStable` | CH59-Sockets_Internet_Domains/Exercise_59-4/uthash.h:893-975 | For every list and every total preorder, the bottom-up merge sort gives a sorted permutation that keeps equal elements in their order |
| `StableSort.BottomUpPerm` | CH59-Sockets_Internet_Domains/Exercise_59-4/uthash.h:902-972 | Whatever the comparison answers, sorting only rearranges the elements |
| `StableSort.InsertAt` | CH59-Sockets_Internet_Domains/Exercise_59-4/uthash.h:289-296 | An in-order add puts the element right before the first one that compares greater, or last |
| `StableSort.InsertAllStable` | CH59-Sockets_Internet_Domains/Exercise_59-4/uthash.h:289-296 | Adding elements in order, each before the first larger one, is a stable sort as well |
| `StableSort.StableUnique` | CH59-Sockets_Internet_Domains/Exercise_59-4/uthash.h:893-975 | A list has only one stable sorted rearrangement |
| `StableSort.InOrderAddsEqualSort` | CH59-Sockets_Internet_Domains/Exercise_59-4/uthash.h:353-384 | In-order adds give the same application order as plain adds followed by HASH_SRT |
| `UtHashSort.MergeRuns` | CH59-Sockets_Internet_Domains/Exercise_59-4/uthash.h:919-960 | The innermost loop relinks two runs in place into their stable merge, with `prev` the reverse of `next`, and leaves the rest of the list alone |
| `UtHashSort.Pass` | CH59-Sockets_Internet_Domains/Exercise_59-4/uthash.h:903-965 | One pass over the list merges neighbouring runs in pairs; the number of merges is at most one exactly if the whole list was one pair |
| `UtHashSort.SortList` | CH59-Sockets_Internet_Domains/Exercise_59-4/uthash.h:898-973 | The whole in-place sort ends, and leaves a doubly linked list in merge-sorted order with its two ends |
| `Bits.ShiftMaskSplit` | CH59-Sockets_Internet_Domains/Exercise_59-4/uthash.h:433-436 | Shift and mask by a power of two give quotient and remainder, so the bucket index is below the bucket count |
| `Bits.ShiftMaskIsCeil` | CH59-Sockets_Internet_Domains/Exercise_59-4/uthash.h:849-851 | The shift-and-mask expression for the ideal chain length is the rounded-up quotient |
| `Bits.AndDoubleMask` | CH59-Sockets_Internet_Domains/Exercise_59-4/uthash.h:857-858 | Under a doubled mask an index stays or moves up by the old bucket count |
| `HashSpec.BktIsMod` | CH59-Sockets_Internet_Domains/Exercise_59-4/uthash.h:433-436 | The bucket index is the hash modulo the number of buckets |
| `HashSpec.EmptyParts` | CH59-Sockets_Internet_Domains/Exercise_59-4/uthash.h:215-245 | A new table has 32 buckets, all empty with expand_mult 0, and all counters 0 |
| `HashSpec.AddExact` | CH59-Sockets_Internet_Domains/Exercise_59-4/uthash.h:770-782 | An add expands if and only if the chain with the new element has at least 10 * (expand_mult + 1) elements and noexpand is off; otherwise it only puts the element in front of its chain and counts it |
| `HashSpec.ExpandWf` | CH59-Sockets_Internet_Domains/Exercise_59-4/uthash.h:836-886 | An expansion keeps the table well placed, keeps the sum of all bucket counts equal to num_items, and keeps num_buckets at 2^log2_num_buckets |
| `HashSpec.ExpandSplits` | CH59-Sockets_Internet_Domains/Exercise_59-4/uthash.h:853-873 | Old bucket i is split between buckets i and i + num_buckets, no handle lost or doubled |
| `HashSpec.ExpandHolds` | CH59-Sockets_Internet_Domains/Exercise_59-4/uthash.h:853-873 | After an expansion every element is in the bucket that its hash selects under the doubled mask |
| `HashSpec.ExpandMembers` | CH59-Sockets_Internet_Domains/Exercise_59-4/uthash.h:853-873 | An expansion puts into a new bucket only elements of the one old bucket it draws from |
| `HashSpec.ExpandReverses` | CH59-Sockets_Internet_Domains/Exercise_59-4/uthash.h:865-871 | Within a new bucket the elements stand in the reverse of their old order |
| `HashSpec.ExpandMetrics` | CH59-Sockets_Internet_Domains/Exercise_59-4/uthash.h:849-864 | ideal_chain_maxlen is the rounded-up items per bucket, nonideal_items the number of places in the buckets beyond it, expand_mult has its exact value, and every bucket holds at most (expand_mult + 1) ideal lengths |
| `HashSpec.SumExcessCounts` | CH59-Sockets_Internet_Domains/Exercise_59-4/uthash.h:859-860 | Adding up the excess of every bucket counts the elements beyond the ideal length, once each |
| `HashSpec.MultBound` | CH59-Sockets_Internet_Domains/Exercise_59-4/uthash.h:859-864 | The stepwise expand_mult bounds the count of its bucket |
| `HashSpec.MultExact` | CH59-Sockets_Internet_Domains/Exercise_59-4/uthash.h:859-864 | The exact value of expand_mult: 0 up to the ideal length, 1 for one element more, then the rounded-up number of ideal lengths, or one less if the ideal length is 1 |
| `HashSpec.PushedWf` | CH59-Sockets_Internet_Domains/Exercise_59-4/uthash.h:770-779 | A push on a bucket keeps the table well-formed and counts one more item |
| `HashSpec.DelWf` | CH59-Sockets_Internet_Domains/Exercise_59-4/uthash.h:792-805 | A removal from a bucket keeps the table well-formed, counts one item less, and the element is gone |
| `HashSpec.DelHolds` | CH59-Sockets_Internet_Domains/Exercise_59-4/uthash.h:792-805 | A removal leaves every other element in its bucket |
| `HashSpec.DelShape` | CH59-Sockets_Internet_Domains/Exercise_59-4/uthash.h:792-805 | A removal cuts one element out of one chain and lowers num_items by one; no other field changes |
| `HashSpec.WithoutAt` | CH59-Sockets_Internet_Domains/Exercise_59-4/uthash.h:453-480 | What is left of a list without one of its elements: all before it, then all after it |
| `HashSpec.LinearFindUnique` | CH59-Sockets_Internet_Domains/Exercise_59-4/uthash.h:748-767 | With unique keys a search finds the one element with the key |
| `HashRuns.StepInv` | CH59-Sockets_Internet_Domains/Exercise_59-4/uthash.h:519-566 | Every add, in-order add, delete and sort keeps application list and buckets over the same elements, each once, each in its bucket, with matching counts |
| `HashRuns.Run` | CH59-Sockets_Internet_Domains/Exercise_59-4/uthash.h:519-566 | Hence every run of operations from the empty table ends in such a state |
| `HashRuns.RunSnoc` | CH59-Sockets_Internet_Domains/Exercise_59-4/uthash.h:399-480 | A run is its operations one after the other, and legal if each is legal where it happens |
| `HashRuns.FindExact` | CH59-Sockets_Internet_Domains/Exercise_59-4/uthash.h:156-176 | In every reachable state with unique keys, searching one bucket chain finds what a search of the whole application list finds |
| `HashRuns.RunLife` | CH59-Sockets_Internet_Domains/Exercise_59-4/uthash.h:780-782 | Over every run, the number of buckets, ineff_expands and noexpand follow the history of expansions, and while noexpand is off no chain exceeds its threshold or what the last expansion left |
| `HashRuns.NoexpandExact` | CH59-Sockets_Internet_Domains/Exercise_59-4/uthash.h:878-883 | noexpand is set if and only if the last two expansions both left more than half the items nonideal, and no earlier pair did |
| `HashRuns.NeverGrowsAgain` | CH59-Sockets_Internet_Domains/Exercise_59-4/uthash.h:780-782 | Once noexpand is set, the bucket array of that table never grows again |
| `HashRuns.InOrderBuildIsSortedBuild` | CH59-Sockets_Internet_Domains/Exercise_59-4/uthash.h:353-384 | Building a table by in-order adds and building it by plain adds and one sort end in the same application order, the stable sorted order of the elements |
| `UtHash.PushLinks` | CH59-Sockets_Internet_Domains/Exercise_59-4/uthash.h:772-779 | The element is linked in at the front of its chain, and all chains stay doubly linked |
| `UtHash.MoveBucket` | CH59-Sockets_Internet_Domains/Exercise_59-4/uthash.h:854-872 | The inner loop of the expansion moves one old chain to the new buckets, counting nonideal items and multipliers as it goes |
| `UtHash.Redistribute` | CH59-Sockets_Internet_Domains/Exercise_59-4/uthash.h:853-873 | After the outer loop the new array holds every chain, count and multiplier as specified, and nonideal_items is the sum of the excesses |
| `UtHash.UnlinkBucket` | CH59-Sockets_Internet_Domains/Exercise_59-4/uthash.h:792-805 | A chain is closed around the removed element, wherever it was, and all chains stay doubly linked |
| `UtHash.HashTable.MakeTable` | CH59-Sockets_Internet_Domains/Exercise_59-4/uthash.h:215-245 | A fresh table has 32 empty buckets and zeroed counters |
| `UtHash.HashTable.ExpandBuckets` | CH59-Sockets_Internet_Domains/Exercise_59-4/uthash.h:836-886 | In-place expansion: the links, bucket array and counters become those of the specified expansion |
| `UtHash.HashTable.AddToTable` | CH59-Sockets_Internet_Domains/Exercise_59-4/uthash.h:340-348 | The element is counted and pushed on its bucket; num_buckets doubles exactly when the count reaches 10 * (expand_mult + 1) and noexpand is off, and otherwise only that bucket changes, its expand_mult not |
| `UtHash.HashTable.Add` | CH59-Sockets_Internet_Domains/Exercise_59-4/uthash.h:399-418 | A plain add appends to the application list, makes a table if there was none, and keeps the whole table valid even through an expansion |
| `UtHash.HashTable.FindSlot` | CH59-Sockets_Internet_Domains/Exercise_59-4/uthash.h:289-296 | The walk finds the place before the first element that compares greater |
| `UtHash.HashTable.AddInOrder` | CH59-Sockets_Internet_Domains/Exercise_59-4/uthash.h:353-384 | An in-order add inserts there, with the same bucket work as a plain add |
| `UtHash.HashTable.FindInBucket` | CH59-Sockets_Internet_Domains/Exercise_59-4/uthash.h:748-767 | The search of one bucket returns an element with the key, or NULL only if the table has none |
| `UtHash.HashTable.Find` | CH59-Sockets_Internet_Domains/Exercise_59-4/uthash.h:168-176 | A lookup returns an element with the key exactly if there is one; with unique keys it is the one a search of the application list returns |
| `UtHash.HashTable.DelInBucket` | CH59-Sockets_Internet_Domains/Exercise_59-4/uthash.h:792-805 | The element leaves its chain and the counts drop by one |
| `UtHash.HashTable.Delete` | CH59-Sockets_Internet_Domains/Exercise_59-4/uthash.h:453-480 | A delete takes the element out of both lists, repairs head and tail, and drops the table with its last element |
| `UtHash.HashTable.Sort` | CH59-Sockets_Internet_Domains/Exercise_59-4/uthash.h:893-975 | Sorting reorders the application list to a stable sorted permutation and changes no bucket |
| `UtHash.HashTable.DeleteAll` | CH59-Sockets_Internet_Domains/Exercise_59-4/uthash.h:1063-1065 | Iterating with deletion visits every element once, in application order, and empties the table |
| `UtHash.HashTable.Fsck` | CH59-Sockets_Internet_Domains/Exercise_59-4/uthash.h:519-566 | Whenever the forward links end, HASH_FSCK reports a fault if and only if some back link, bucket count or total is wrong |
| `UtHash.HashTable.ValidIsSane` | CH59-Sockets_Internet_Domains/Exercise_59-4/uthash.h:519-566 | The table invariant implies all that HASH_FSCK demands |
| `HashReplay.Apply` | CH59-Sockets_Internet_Domains/Exercise_59-4/uthash.h:399-418 | The table in memory makes the step that the run model makes |
| `HashReplay.Replay` | CH59-Sockets_Internet_Domains/Exercise_59-4/uthash.h:519-566 | For every legal sequence of operations the table in memory follows the run model, and HASH_FSCK passes after each operation |
| `KvSpec.ChangesIffOwnerActs` | CH59-Sockets_Internet_Domains/Exercise_59-4/server.c:32-62 | One request changes or removes an entry if and only if it is an overwrite with another value or a removal sent by the entry's creator; a creator never changes |
| `KvSpec.OnlyTheCreatorChanges` | CH59-Sockets_Internet_Domains/Exercise_59-4/server.c:138-178 | Over any sequence of requests an entry stays as it is unless a request for its key carries its creator's id |
| `KvSpec.CreatorFixed` | CH59-Sockets_Internet_Domains/Exercise_59-4/server.c:26-34 | From creation to deletion an entry keeps its creator |
| `KvSpec.ReadsBack` | CH59-Sockets_Internet_Domains/Exercise_59-4/server.c:138-170 | What a client stored, by create or by update, is what any reader gets until that client acts on the key again |
| `KvSpec.AppearsIffStored` | CH59-Sockets_Internet_Domains/Exercise_59-4/server.c:20-29 | A missing key appears if and only if a create or update with a value names it, with the sender as creator and that value |
| `KvSpec.StaysAbsent` | CH59-Sockets_Internet_Domains/Exercise_59-4/server.c:152-162 | Until someone stores it a missing key stays missing, and every read of it is answered with Key not found |
| `KvSpec.DeletedIsAbsent` | CH59-Sockets_Internet_Domains/Exercise_59-4/server.c:52-64 | A key deleted by its creator is missing from then on, until someone stores it again |
| `KvSpec.AnswersReadsOnly` | CH59-Sockets_Internet_Domains/Exercise_59-4/server.c:138-178 | The server answers a request if and only if it is a read without a value |
| `KvSpec.AfterSplits` | CH59-Sockets_Internet_Domains/Exercise_59-4/server.c:108-179 | Requests take effect one after the other |
| `KvSpec.RepliesAt` | CH59-Sockets_Internet_Domains/Exercise_59-4/server.c:108-179 | Every request has its own reply, to the contents that the requests before it left |
| `KvStore.Store.UpsertValue` | CH59-Sockets_Internet_Domains/Exercise_59-4/server.c:17-39 | Creates, overwrites or refuses as the map model says, through the hash table |
| `KvStore.Store.GetValue` | CH59-Sockets_Internet_Domains/Exercise_59-4/server.c:42-49 | Returns the value exactly of the keys that are present |
| `KvStore.Store.DeleteKeyValue` | CH59-Sockets_Internet_Domains/Exercise_59-4/server.c:52-64 | Removes the entry if it exists and the creator asked |
| `KvStore.Store.Cleanup` | CH59-Sockets_Internet_Domains/Exercise_59-4/server.c:67-73 | Visits each remaining entry exactly once, one for every key, and leaves the store empty |
| `KvStore.Store.Handle` | CH59-Sockets_Internet_Domains/Exercise_59-4/server.c:132-178 | The dispatch on action and number of parts: next contents and reply |
| `KvStore.Store.Serve` | CH59-Sockets_Internet_Domains/Exercise_59-4/server.c:108-179 | For every sequence of requests the hash-backed store ends with the contents, and gives the replies, of the map model |
| `CStrings.Trichotomy` | CH30-Threads_Thread_Synchronization/Exercise_30-2/thread_safe_tree.c:75-98 | strcmp separates two keys into exactly one of below, equal and above |
| `CStrings.Transitive` | CH30-Threads_Thread_Synchronization/Exercise_30-2/thread_safe_tree.c:75-98 | Below is transitive, so strcmp gives a strict total order |
| `CStrings.LtIsLexicographic` | CH30-Threads_Thread_Synchronization/Exercise_30-2/thread_safe_tree.c:75-98 | Below means: at the first place where the strings differ, the first one ends or has the smaller character |
| `TreeProtocol.StepInv` | CH30-Threads_Thread_Synchronization/Exercise_30-2/thread_safe_tree.c:16-162 | Any step of any thread, in any interleaving of add and lookup, keeps the tree linked, its keys findable and its mutexes consistent, and unsets nothing |
| `TreeProtocol.StepExtends` | CH30-Threads_Thread_Synchronization/Exercise_30-2/thread_safe_tree.c:61-87 | A step never changes a key, value or child link that was set |
| `TreeProtocol.RunInv` | CH30-Threads_Thread_Synchronization/Exercise_30-2/thread_safe_tree.c:46-162 | So does every run of any number of threads |
| `TreeProtocol.RunSnoc` | CH30-Threads_Thread_Synchronization/Exercise_30-2/thread_safe_tree.c:46-162 | A run is its events one after the other, and legal if each is legal where it happens |
| `TreeProtocol.UniqueKeys` | CH30-Threads_Thread_Synchronization/Exercise_30-2/thread_safe_tree.c:121-133 | No key is stored in two nodes |
| `TreeProtocol.SearchTree` | CH30-Threads_Thread_Synchronization/Exercise_30-2/thread_safe_tree.c:75-120 | All keys reached through the field `left` of a node are below its own, all reached through `right` above |
| `TreeProtocol.NoDeadlock` | CH30-Threads_Thread_Synchronization/Exercise_30-2/thread_safe_tree.c:54-94 | While some call has not returned, some thread can take a step |
| `TreeProtocol.NodesBounded` | CH30-Threads_Thread_Synchronization/Exercise_30-2/thread_safe_tree.c:76-110 | There are at most as many nodes below the root as there were calls |
| `TreeProtocol.RunBounded` | CH30-Threads_Thread_Synchronization/Exercise_30-2/thread_safe_tree.c:46-162 | A run with c calls has at most 8 * c * (c + 1) events, however it is scheduled |
| `TreeProtocol.StuckIffReturned` | CH30-Threads_Thread_Synchronization/Exercise_30-2/thread_safe_tree.c:46-162 | A run can go on without new calls if and only if some call has not returned; so all calls return |
| `TreeProtocol.FinalTree` | CH30-Threads_Thread_Synchronization/Exercise_30-2/thread_safe_tree.c:61-73 | When all calls have returned, the keys stored are exactly those of the adds, each with the value of an add of that key, and no node is empty except the root when there was no add |
| `TreeProtocol.ChildUnlocked` | CH30-Threads_Thread_Synchronization/Exercise_30-2/thread_safe_tree.c:25-30 | The mutex that initialize takes on a fresh child is never held by another thread |
| `TreeProtocol.AddedStays` | CH30-Threads_Thread_Synchronization/Exercise_30-2/thread_safe_tree.c:61-73 | Once an add has returned, whether it stored its key or found it, the key is in the tree for good with a value that is never replaced; the value is the add's own if it stored the key |
| `TreeProtocol.AddStores` | CH30-Threads_Thread_Synchronization/Exercise_30-2/thread_safe_tree.c:46-136 | When a call of add has returned, the key it was called with is in the tree with a value, its own value if it stored the key |
| `TreeProtocol.OnlyAddedKeys` | CH30-Threads_Thread_Synchronization/Exercise_30-2/thread_safe_tree.c:61-64 | Every key in the tree, and its value, comes from one call of add |
| `TreeProtocol.LookupExact` | CH30-Threads_Thread_Synchronization/Exercise_30-2/thread_safe_tree.c:139-162 | A lock-free lookup answers true if its key was stored when it was called, and only if it is stored when it answers |
| `TreeProtocol.LookupAfterAdd` | CH30-Threads_Thread_Synchronization/Exercise_30-2/thread_safe_tree.c:139-162 | A lookup called after an add of the same key has returned finds the key |
| `RacyCounter.RunInv` | CH30-Threads_Thread_Synchronization/Exercise_30-1/thread_incr.c:23-26 | No schedule brings the counter above the number of stores, or below two once the last writer had stored before |
| `RacyCounter.LosingPrints` | CH30-Threads_Thread_Synchronization/Exercise_30-1/thread_incr.c:23-26 | A schedule that loses x rounds of one thread and y of the other ends with 2n - x - y |
| `RacyCounter.PrintsExactly` | CH30-Threads_Thread_Synchronization/Exercise_30-1/thread_incr.c:23-29 | The possible final values for two threads of n rounds each are exactly min(n, 2) to 2n |
| `SeqNumServer.BackupRoundTrip` | CH44-Pipes_and_FIFOs/seqnum_with_backup/fifo_seqnum_server.c:99-101 | A number formatted into the reused 21-byte buffer is read back unchanged, whatever else the buffer holds |
| `SeqNumServer.DecimalFits` | CH44-Pipes_and_FIFOs/seqnum_with_backup/fifo_seqnum_server.c:100 | Every int fits the buffer with its terminator |
| `SeqNumServer.DigitsAre` | CH44-Pipes_and_FIFOs/seqnum_with_backup/fifo_seqnum_server.c:100 | The text of a number is its decimal digits, the last one the ones, without leading zero |
| `SeqNumServer.RunSnoc` | CH44-Pipes_and_FIFOs/seqnum_with_backup/fifo_seqnum_server.c:70-104 | A run is its events one after the other, and legal if each is legal where it happens |
| `SeqNumServer.AnsweredAsAsked` | CH44-Pipes_and_FIFOs/seqnum_with_backup/fifo_seqnum_server.c:87-96 | Every request gets one response, in order, for the length it asked |
| `SeqNumServer.RunInv` | CH44-Pipes_and_FIFOs/seqnum_with_backup/fifo_seqnum_server.c:31-104 | Every run of requests, backup writes, crashes and restarts keeps file, counter and handed-out ranges consistent |
| `SeqNumServer.OverlapOnlyAfterLoss` | CH44-Pipes_and_FIFOs/seqnum_with_backup/fifo_seqnum_server.c:87-103 | Two ranges overlap only if the earlier response was the last before a crash that hit before its backup write; the response after such a loss always repeats its start |
| `SeqNumServer.NoCrashNoGap` | CH44-Pipes_and_FIFOs/seqnum_with_backup/fifo_seqnum_server.c:70-104 | From an empty file and without crashes the ranges start at 0 and follow one another without gap |
| `SignalPingPong.StepInv` | CH22-Signals_Advanced_Features/Exercise_22-3/sig_speed_sigsuspend.c:76-90 | Every step of either process keeps the round in one of its four places |
| `SignalPingPong.RunSnoc` | CH22-Signals_Advanced_Features/Exercise_22-3/sig_speed_sigsuspend.c:76-90 | A run is its steps one after the other, each enabled where it happens |
| `SignalPingPong.PingPong` | CH22-Signals_Advanced_Features/Exercise_22-3/sig_speed_sigsuspend.c:72-92 | No signal is merged with a pending one or sent to a process that has left its loop, the counters differ by at most one, nothing gets stuck, and every run ends after exactly 2 * numSigs signals |
| `EchoReaper.StepInv` | CH60-Sockets_Server_Design/limited_children/is_echo_sv.c:21-31 | Every step of main loop, handler and children keeps count and unreaped children related |
| `EchoReaper.NeverTooMany` | CH60-Sockets_Server_Design/limited_children/is_echo_sv.c:74-97 | At most MAX_CHILD children are unreaped in every reachable state, even if the handler cuts into the increment; no zombie is left without a pending signal or a running handler |
| `EchoReaper.CountExact` | CH60-Sockets_Server_Design/limited_children/is_echo_sv.c:94 | CHILD_COUNT is off by exactly the children reaped inside an increment, so the loop is left with MAX_CHILD unreaped if and only if there were none |
| `EchoReaper.CountCanDrift` | CH60-Sockets_Server_Design/limited_children/is_echo_sv.c:94 | A sequence of steps after which no child is left and CHILD_COUNT is 1 |
| `EchoReaper.LeavesExactly` | CH60-Sockets_Server_Design/limited_children/is_echo_sv.c:74-97 | The loop can be left with k children unreaped if and only if 0 <= k <= MAX_CHILD: even with none |
| `FirstFitSpec.FirstFit` | CH07-Memory_Allocation/malloc_and_free/malloc_and_free.c:17-32 | The block found is free and large enough, and none before it is |
| `FirstFitSpec.RunSound` | CH07-Memory_Allocation/malloc_and_free/malloc_and_free.c:60-98 | Over every run blocks keep place and size, and the heap stays within its limit |
| `FirstFitSpec.RunSnoc` | CH07-Memory_Allocation/malloc_and_free/malloc_and_free.c:60-98 | A run is its calls one after the other, and legal if each is legal where it happens |
| `FirstFitSpec.ServedIff` | CH07-Memory_Allocation/malloc_and_free/malloc_and_free.c:60-79 | A request is met if and only if it is not for 0 bytes and some free block is large enough or the heap has room for a header and the size |
| `FirstFitSpec.MallocExact` | CH07-Memory_Allocation/malloc_and_free/malloc_and_free.c:60-88 | A request that is met takes the first free block that is large enough as it is, or else puts a block of exactly its size last; the block is in use and at least as large as asked, and the other blocks are as before |
| `FirstFitSpec.LiveIsLargeEnough` | CH07-Memory_Allocation/malloc_and_free/malloc_and_free.c:60-98 | Through any later calls that do not free it, the block a request got stays in use and at least as large as that request, and no other request gets it |
| `FirstFitSpec.FreeExact` | CH07-Memory_Allocation/malloc_and_free/malloc_and_free.c:90-98 | Freeing marks one block and changes nothing else |
| `FirstFitSpec.PayloadsDisjoint` | CH07-Memory_Allocation/malloc_and_free/malloc_and_free.c:60-88 | Payloads are disjoint and in address order, with room for a header between them, and lie within the heap |
| `FirstFitSpec.GrowsIffNoFit` | CH07-Memory_Allocation/malloc_and_free/malloc_and_free.c:74-79 | The heap grows if and only if a request is met and no free block fits it |
| `FirstFitSpec.InUseIsExclusive` | CH07-Memory_Allocation/malloc_and_free/malloc_and_free.c:80-98 | A block in use is neither handed out again nor touched until it is freed |
| `FirstFitSpec.FreedIsReused` | CH07-Memory_Allocation/malloc_and_free/malloc_and_free.c:90-98 | Freeing a block and repeating its request gives it back, when nothing earlier fits |
| `FirstFit.Heap.SearchFreeSpace` | CH07-Memory_Allocation/malloc_and_free/malloc_and_free.c:17-32 | The list walk ends at the first fitting block, or past the last block, which it returns for appending |
| `FirstFit.Heap.AllocateSpace` | CH07-Memory_Allocation/malloc_and_free/malloc_and_free.c:34-58 | A new block is placed at the old break and linked last, or nothing changes if sbrk fails |
| `FirstFit.Heap.MyMalloc` | CH07-Memory_Allocation/malloc_and_free/malloc_and_free.c:60-88 | A request changes the linked block list as the layout model says and returns the block it names, at least as large as asked; NULL exactly for 0 bytes or if no free block fits and the break cannot move; a new block starts at the old break, which moves up by the header and the size |
| `FirstFit.Heap.FreeBlock` | CH07-Memory_Allocation/malloc_and_free/malloc_and_free.c:90-98 | Freeing marks the block and changes nothing else |
| `FirstFit.Heap.PayloadsApart` | CH07-Memory_Allocation/malloc_and_free/malloc_and_free.c:34-58 | The payloads in memory are in address order, a header apart, and below the break |
| `FirstFit.Heap.Replay` | CH07-Memory_Allocation/malloc_and_free/malloc_and_free.c:60-98 | For every legal sequence of calls the block list in memory ends as the layout model says, its blocks in place and their payloads apart |
| `ProcessTreeSpec.ParentIs` | CH12-System_and_Process_Information/pstree/pstree.c:74-87 | The parent is the ghost process exactly for a ppid of 0, and otherwise the first process with that pid, if there is one |
| `ProcessTreeSpec.KidsAre` | CH12-System_and_Process_Information/pstree/pstree.c:74-88 | The child list of a node holds exactly the processes whose parent it is, in the order of the process list |
| `ProcessTreeSpec.ChildOfOne` | CH12-System_and_Process_Information/pstree/pstree.c:74-88 | Every process is in the child list of its parent, at one place only, and in no other child list |
| `ProcessTreeSpec.DepthsAreLevels` | CH12-System_and_Process_Information/pstree/pstree.c:74-88 | In every list, cycles and unlisted parents included, a process is connected to the ghost process exactly if its parent is, and is then one level deeper |
| `ProcessTreeSpec.PrintedOnce` | CH12-System_and_Process_Information/pstree/pstree.c:91-118 | Printing emits a process exactly once if its chain of parents reaches 0, and not at all otherwise |
| `ProcessTreeSpec.PrintedOrderly` | CH12-System_and_Process_Information/pstree/pstree.c:91-118 | Each line shows a process at its distance from the ghost process, after its parent, marked as last child exactly if it is |
| `ProcessTreeSpec.PrintedPreorder` | CH12-System_and_Process_Information/pstree/pstree.c:91-118 | The lines are in preorder: a process before everything under it, and siblings, each with all that is under it, in the order of the process list |
| `ProcessTree.ProcList.Insert` | CH12-System_and_Process_Information/pstree/pstree.c:7-31 | Appends a node; the very first one is linked to itself |
| `ProcessTree.ProcList.WalkEndsIff` | CH12-System_and_Process_Information/pstree/pstree.c:21-34 | Following the list to its end succeeds if and only if it does not have exactly one node |
| `ProcessTree.ProcList.FindEndsIff` | CH12-System_and_Process_Information/pstree/pstree.c:33-40 | The search ends if and only if there is not exactly one node or that node is the wanted one; it answers NULL if and only if there is not exactly one node and none is the wanted one |
| `ProcessTree.OneProcess` | CH12-System_and_Process_Information/pstree/pstree.c:21-28 | After one insert the node is its own successor, and every number of links leads back to it |
| `ProcessTree.ProcList.FindNode` | CH12-System_and_Process_Information/pstree/pstree.c:33-40 | Finds the first node with a pid, or none, whenever the search ends |
| `ProcessTree.CreateTree` | CH12-System_and_Process_Information/pstree/pstree.c:53-89 | Succeeds exactly if every parent is listed, and then fills every child array with that node's children in list order and sets every parent link |
| `ProcessTree.PrintSubtree` | CH12-System_and_Process_Information/pstree/pstree.c:91-109 | On every process connected to the ghost process, the only ones it is called on, the recursion over the child arrays ends and emits the lines of the subtree |
| `ProcessTree.PrintTree` | CH12-System_and_Process_Information/pstree/pstree.c:111-118 | For every filled tree, parent cycles included, printing ends, and its lines below the heading show depth, mark, name and pid of the processes in that order |
| `SparseCopy.CopyBuffer` | CH04-FILE_IO/cp_sparse/cp_sparse.c:38-48 | The bytes of one buffer: what is in the file, followed by the NULs held back, is what was read |
| `SparseCopy.Copy` | CH04-FILE_IO/cp_sparse/cp_sparse.c:36-49 | For every source, every way read cuts it into pieces of 1 to 1024 bytes, and every start value of the counter, the copy is the start value's NULs followed by the source, without trailing NULs; the bytes written are the source's non-NUL bytes |
| `SparseCopy.NonNulHasNone` | CH04-FILE_IO/cp_sparse/cp_sparse.c:39-47 | No NUL is ever written, and every other byte as often as the source holds it |
| `SparseCopy.FaithfulIff` | CH04-FILE_IO/cp_sparse/cp_sparse.c:34-49 | The copy equals the source if and only if the source is empty, or the counter started at 0 and the source does not end in NUL |
| `SparseCopy.OnlyTrailingNulsLost` | CH04-FILE_IO/cp_sparse/cp_sparse.c:36-49 | With the counter at 0 the copy differs from the source only by trailing NULs |

## Left out

- Wrap-around of 32-bit counters in `uthash.h` and of `int` in `thread_incr.c`: numbers are unbounded, which differs only from 2^31 items, buckets or increments on.
- Deletion in the tree (`thread_safe_tree.c`, lines 252-337): it frees a replacement node that stays linked, picks the side to cut by the root's key and leaves the parent locked on two paths, so it does not remove what its comments say.
- The sequential helpers of the tree (`getParent`, `getNode`, `getMin`, `getMax`), used only by that deletion.
- Calls of `add` and `lookup` with a NULL key, and failing mutex calls or allocations.
- Failing `lseek` and `write` in the sparse copy, and a start value of its counter beyond the largest file offset.
- HASH_SELECT, HASH_REPLACE, HASH_CLEAR, the Bloom filter, key emission, the hash functions and the out-of-memory paths of `uthash.h`.
- Parsing, sockets and the texts of error messages in `server.c`; requests whose parts do not fit their buffers.
- A missing backup file: the descriptor of the created file is not kept, so the model begins with an existing, possibly empty, file.
- Failing or partial backup writes of the sequence-number server.
- Scanning of `/proc` in `pstree.c`: the model begins with the list of name, pid and parent pid. More than 512 children of one process overflow the array and are excluded.
- ProcessTree.PrintSubtree: does not cover a start below a parent cycle, on which `print_tree` never calls it.
- The characters of the indentation that `pstree.c` prints: a line records depth, mark, name and pid.
- The remaining exercises (file copies, terminals, timers, scheduling, process groups and the like): thin uses of system calls with little state of their own.
