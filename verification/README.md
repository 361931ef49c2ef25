# Verified models of goext's containers and protocols

goext is a Go utility library. This project models its algorithmic cores in Dafny and proves what they are
for. Each core is modelled in the form it has in Go: an object whose methods change fields is a class with
`modifies` clauses, a loop is a loop with invariants, and a computation is a function. Every operation is
proved against a value that says what it means (a sequence of items, a bag of timers, a list of records),
and the main results speak of whole runs.

| files | core |
|---|---|
| `BTreeOrder` `BTreeShape` `BTreeSearch` `BTreeMemory` `BTreeSteps` `BTreeUpdate` `BTreeGrow` `BTreeStore` `BTreeForest` `BTreeRun` `BTreeIterate` | copy-on-write B-tree with clones and a shared free list |
| `TimerClock` `TimerWheel` `TimerRun` | hierarchical timer wheel |
| `RsyncHash` `Rsync` | delta protocol: signatures, sync, apply |
| `RingFormat` `RingLog` `RingBuffer` `RingFollow` | framed ring log with cursors |
| `BigQueueLayout` `BigQueue` | queue laid across arenas, with loading and eviction |
| `SmoothWeighted` | smooth weighted round robin |
| `CuckooTable` `CuckooSearch` `CuckooPlan` `Cuckoo` `CuckooLost` `CuckooHarm` | cuckoo hash table |
| `XorLinks` `XorList` `XorWalk` | XOR linked list |
| `ConsistentRing` `Consistent` | consistent hashing with bounded loads |
| `TimeSpan` | union and intersection of time spans |
| `Arithmetic` | division with a positive divisor |

How the cores are modelled:

- B-tree nodes live in a store, a map from addresses to cells, that all trees on it share. A ghost tree value
  with the addresses in it says what a root stands for. `Forest.View()` is the sequence of contents of all trees.
  The order is any strict weak order. `DeleteItem` covers `Delete`, `DeleteMin` and `DeleteMax`.
- The wheel's lists are sequences. A run of it is a run of a much simpler machine (`TimerRun.State`): a clock and
  a bag of timers that fires exactly what is due.
- The client's tokens are a choice function. The round trip holds for every faithful choice, and the client's
  choice is shown to be one.
- The ring is an array of bytes. `RingFollow.Bytes` gives its content as a function of the records ever stored,
  so that what a stale cursor finds is decided by the inputs.
- Queue arenas are byte sequences under their numbers. `msgs` is the queue as a sequence of messages.
- A cuckoo bucket is a sequence of four cells. The search is modelled with its fixed array of 500 nodes, blank
  nodes and overwriting included; `CuckooPlan.SearchOf` is what it comes to, as a function of the table.
- XOR list elements are cells of a memory addressed by 64-bit words. `elems` is the list as a sequence of addresses.
- Times are reals, and spans have closed or open ends.

## Findings

Where the code does not do what its name, comment or documentation says, the model follows the code. Each of
these has an input, and a condition that holds just when the code goes wrong, except where it says one way.

| what | condition | input |
|---|---|---|
| `container/hashtable/cuckoo.go`: a stored key cannot be read | `Cuckoo.Table.Put`: the key's two buckets lie in a closed set of full buckets, which no entry can leave | `CuckooLost.FifthKeyLost` |
| `container/hashtable/cuckoo.go`: storing a key makes an earlier key unreadable | `Cuckoo.Table.Put`: the path that the search gives for the table carries the earlier entry to a bucket that is not its own, or to where the new key is put (`CuckooPlan.Harms`); only when the new key's buckets are cut off and bucket zero is full | `CuckooHarm.EarlierKeyLost` |
| `time/timespan/interval.go`: the union has spans side by side that are not merged | `TimeSpan.Union`: earlier spans come up to a point without having it, and of the spans that start there the first does not have it and another does (`Seam`) | `TimeSpan.SeamLeft` |
| `container/xorlist/xorlist.go`: deleting while iterating, as the package comment shows, ends in a fault | `XorWalk.DeleteWhere`: some element deleted is the second at that time | `XorWalk.SecondOfThree` |
| `io/ring/buffer.go`: a record at the size limit is accepted, empties the log and is not written | `RingFormat.FrameSize`, `RingBuffer.Buffer.Insert`: the data is exactly at the limit | the limit itself |
| `io/ring/buffer.go`: a cursor to an ejected record does not read the first record | `RingBuffer.Buffer.Read`: the bytes now there pass for the record asked for (`Posing`); over a run one way, by `RingFollow.Follow`: a reader that does not get what the log says has been `Fooled`, though what it then gets may by chance be right | `RingFollow.EmptyRead` |
| `io/rsync/gsync_client.go`: a known tail is sent again, because the rolling checksum of a window that shrank is wrong | `Rsync.ShrunkFound`: right just when the file ends with a zero and the window's sum is a multiple of 65536 | `Rsync.TailSentAnew` |
| `sort/selector/smooth_weighted.go`: current weights do not sum to zero after failures, because the fixed total is subtracted | `SmoothWeighted.SumKept`: kept just when no effective weight is reduced | `SmoothWeighted.SumSinks` |
| `hash/consistent/consistent.go`: asking `GetN` for no hosts gives all of them, or never ends | `Consistent.LapEnds`, `Consistent.ConsistentHash.NotFirst`: it ends just when the next point is not the least | any key before the least point |
| `time/timer.go`: the kept count of timers is too low | `TimerRun.CountDrifts`: by the number of deletions that named no timer | one such deletion |
| `time/timer.go`: `secondNum` divides by a minute, so the list of seconds is never used | `TimerWheel.LevelOf`: never list 1 | any timer a second ahead |
| `time/timer.go`: ticks closer than 7 ms are accepted | `TimerRun.AcceptedWhen`: once 31 days of wheel time are over | a tick after 31 days |

The package comment of the XOR list starts its loops with a nil predecessor; `Front` returns the head for that,
and the model starts with the head.

## Model

| member | source | states |
|---|---|---|
| `BTreeRun.Run` | container/btree/btree.go:612-873 | any interleaving of new trees, clones, inserts, deletions, lookups and clears over shared nodes and free lists gives the answers, and ends with the contents, that independent trees would |
| `BTreeRun.TreesIsolated` | container/btree/btree.go:612-623 | what a tree holds after a run is decided by the writes addressed to it alone, whatever is done to its clones and originals |
| `BTreeRun.Perform` | container/btree/btree.go:612-873 | one operation changes the tree it names as the model says, and no other, and answers the item replaced, taken out or found |
| `BTreeForest.IsolatedMove` | container/btree/btree.go:250-275 | a write by one tree, made only to nodes its context owns, leaves every other tree intact and every context owning nodes of one tree only |
| `BTreeForest.IsolatedClone` | container/btree/btree.go:612-623 | two new contexts that own nothing keep that invariant when two trees share all nodes |
| `BTreeForest.Forest.NewFreeList` | container/btree/btree.go:88-90 | an empty free list; no tree changes |
| `BTreeForest.Forest.NewWithFreeList` | container/btree/btree.go:132-140 | a new empty tree; a degree of one or less is refused |
| `BTreeForest.Forest.Clone` | container/btree/btree.go:612-623 | a second tree with the same contents; all others unchanged |
| `BTreeForest.Forest.ReplaceOrInsert` | container/btree/btree.go:674-698 | a map update of that tree keyed by equivalence, the replaced item returned, all other trees unchanged, order, leaf depth, occupancy and length kept |
| `BTreeForest.Forest.DeleteItem` | container/btree/btree.go:702-733 | exactly the item, the least or the greatest is removed and returned, or nothing; all other trees unchanged, the invariants kept |
| `BTreeForest.Forest.Clear` | container/btree/btree.go:856-861 | the tree is empty, others unchanged; if asked, all nodes it owned are on the free list unless that is full |
| `BTreeForest.Forest.Get` | container/btree/btree.go:809-814 | the stored item equivalent to the key, if there is one |
| `BTreeForest.Forest.Min` | container/btree/btree.go:817-819 | the least item, if any |
| `BTreeForest.Forest.Max` | container/btree/btree.go:822-824 | the greatest item, if any |
| `BTreeForest.Forest.Len` | container/btree/btree.go:832-834 | the number of items |
| `BTreeForest.Forest.SplitRoot` | container/btree/btree.go:685-691 | a full root is split below a new one: same contents, one level more |
| `BTreeForest.Forest.DropRoot` | container/btree/btree.go:724-728 | a root without items gives way to its only child: same contents, one level less |
| `BTreeOrder.PutMeans` | container/btree/btree.go:674-698 | the specification of insertion: sorted, the equivalent replaced, every other element kept |
| `BTreeOrder.DropMeans` | container/btree/btree.go:702-704 | the specification of deletion: sorted, just the equivalent gone |
| `BTreeOrder.FoundMeans` | container/btree/btree.go:187-195 | found exactly when an equivalent element is stored, for any strict weak order |
| `BTreeStore.Store.Find` | container/btree/btree.go:187-195 | binary search gives the slot of the item and whether an equivalent is there |
| `BTreeStore.Store.NewNode` | container/btree/btree.go:92-104 | the last node of the free list, or a new one; never one in use |
| `BTreeStore.Store.FreeNode` | container/btree/btree.go:653-667 | an owned node is emptied and put on the list if there is room; another's node is left alone |
| `BTreeStore.Store.MutableFor` | container/btree/btree.go:250-269 | the node itself or a copy that the context owns, with the same items and children |
| `BTreeStore.Store.MutableChild` | container/btree/btree.go:271-275 | the same for a child, with the parent pointing at it |
| `BTreeStore.Store.Split` | container/btree/btree.go:280-290 | the node keeps what is left of the item, a new node takes what is right of it |
| `BTreeStore.Store.MaybeSplitChild` | container/btree/btree.go:294-303 | a full child is split in two minimal ones, contents and shape kept; one that is not full is left alone |
| `BTreeStore.Store.Insert` | container/btree/btree.go:308-333 | insertion below a node with room: contents updated, the replaced item returned, shape kept, only owned nodes written |
| `BTreeStore.Store.Remove` | container/btree/btree.go:384-430 | removal of item, least or greatest below a node: contents updated, shape kept, only owned nodes written; ends, with at most one regrowth on each level |
| `BTreeStore.Store.RemoveBelow` | container/btree/btree.go:411-429 | the descent into a child with an item to spare |
| `BTreeStore.Store.ReplaceByPredecessor` | container/btree/btree.go:417-426 | the greatest item of the child takes the place of the one removed |
| `BTreeStore.Store.GrowChildAndRemove` | container/btree/btree.go:451-486 | a minimal child is grown, and the removal starts over at the same node |
| `BTreeStore.Store.StealLeft` | container/btree/btree.go:452-461 | an item and a subtree move from the left neighbour: contents, order and occupancy kept, the target still where the search looks |
| `BTreeStore.Store.StealRight` | container/btree/btree.go:462-471 | the same from the right |
| `BTreeStore.Store.Merge` | container/btree/btree.go:472-484 | two minimal neighbours and the item between become one node: the same is kept |
| `BTreeStore.Store.Reset` | container/btree/btree.go:866-873 | owned nodes go to the free list, children first; going on means all of them are there, stopping means the list is full; nothing else changes |
| `BTreeStore.Store.Get` | container/btree/btree.go:336-344 | lookup below a node agrees with lookup in its contents |
| `BTreeStore.Store.Min` | container/btree/btree.go:347-358 | the first item of the contents |
| `BTreeStore.Store.Max` | container/btree/btree.go:361-372 | the last item of the contents |
| `BTreeSteps.SplitMerge` | container/btree/btree.go:280-290 | merging undoes splitting |
| `BTreeIterate.Ascend` | container/btree/btree.go:737-769 | the callback is called on exactly the items in range, in order, once each, until it answers no |
| `BTreeIterate.Descend` | container/btree/btree.go:773-805 | the same downwards |
| `BTreeIterate.IterateUp` | container/btree/btree.go:502-531 | the recursion over subtrees, with its threaded flags, is a scan of the contents |
| `BTreeIterate.IterateDown` | container/btree/btree.go:532-559 | the same downwards |
| `BTreeIterate.ScanUpVisits` | container/btree/btree.go:505-531 | that scan calls back on exactly the items in range |
| `BTreeIterate.ScanDownVisits` | container/btree/btree.go:532-556 | the same downwards |
| `TimerRun.Drive` | time/timer.go:155-219 | any run of ticks and requests is a run of the bag with the clock, firing the same timers in the same order |
| `TimerRun.FiresWhenDue` | time/timer.go:236-269 | over any run, a timer neither deleted nor reset is fired in the first accepted tick that is not before its time |
| `TimerRun.NeverEarly` | time/timer.go:236-269 | over any run, no timer is fired before its time |
| `TimerRun.OverdueOnlyIf` | time/timer.go:236-269 | at any point of any run, a stored timer that is due was armed after the last accepted tick, or re-armed by it, or there has been none |
| `TimerRun.Conserved` | time/timer.go:236-330 | timers stored and gone are the timers there at first and come since, re-arming included |
| `TimerRun.CountDrifts` | time/timer.go:294-309 | the kept count is short by the deletions that named no timer |
| `TimerRun.AcceptedWhen` | time/timer.go:416-422 | a tick is accepted 7 ms after the millisecond of the last, and always after 31 days |
| `TimerRun.HandleTick` | time/timer.go:180-188 | a tick is a step of the bag machine |
| `TimerRun.HandleRequest` | time/timer.go:193-210 | an added, deleted or reset timer is a step of it |
| `TimerWheel.Wheel.Tick` | time/timer.go:180-188 | an accepted tick fires all due timers and no other, in order of trigger, and keeps the invariant of the lists |
| `TimerWheel.Wheel.TimerUpdate` | time/timer.go:406-445 | the hands show the new time, the lists are settled for it, and no timer is lost |
| `TimerWheel.Wheel.TimerCascade` | time/timer.go:369-404 | what is less than a unit ahead moves to finer lists; the rest is in later units than the clock |
| `TimerWheel.Wheel.InsertTimerNode` | time/timer.go:344-367 | a timer goes to the list of the greatest unit it is ahead by |
| `TimerWheel.Wheel.InsertSlot` | time/timer.go:271-292 | behind those that trigger no later |
| `TimerWheel.Wheel.DeltaDiff` | time/timer.go:332-342 | how far the hands are behind the clock |
| `TimerWheel.Wheel.Run` | time/timer.go:236-269 | due timers leave and fire in order, periodic ones that did not fail come back one period later |
| `TimerWheel.Wheel.AddTimer` | time/timer.go:197-199 | one timer more, and the count with it |
| `TimerWheel.Wheel.DeleteTimer` | time/timer.go:294-309 | one timer with the id leaves, if there is one; the count drops in any case |
| `TimerWheel.Wheel.ResetTimer` | time/timer.go:311-330 | the timer's new time counts its new period from when it was last armed |
| `TimerWheel.LevelOf` | time/timer.go:344-367 | list 1 is never chosen, and a timer in list 2, 3 or 4 is a whole unit ahead |
| `TimerClock.MoveHands` | time/timer.go:425-438 | adding an advance with carries leaves the hands at the digits of the elapsed time, and tells which units have not changed |
| `TimerClock.HandTimeOf` | time/timer.go:332-342 | the hands show the elapsed time but for rounds of 31 days and a part of a millisecond |
| `Rsync.Transfer` | io/rsync/gsync_server.go:91-134 | signatures, table, sync and apply in a row give the server the client's file, if no strong hash collides |
| `Rsync.RoundTrip` | io/rsync/gsync_client.go:48-178 | applying what is sent to the old file gives the new one |
| `Rsync.PlanRebuilds` | io/rsync/gsync_client.go:59-175 | so for every choice of tokens that name blocks equal to their windows |
| `Rsync.ChooseFaithful` | io/rsync/gsync_client.go:122-145 | the client's choice is such, even where its checksum is wrong |
| `Rsync.Sync` | io/rsync/gsync_client.go:48-178 | the loop sends exactly the plan |
| `Rsync.Signatures` | io/rsync/gsync_server.go:23-88 | one signature for each block, in order, to the end of the file |
| `Rsync.LookUpTable` | io/rsync/gsync_client.go:22-40 | the signatures under each checksum, in order |
| `Rsync.Apply` | io/rsync/gsync_server.go:91-134 | literal data and named blocks, one after the other |
| `Rsync.Send` | io/rsync/gsync_client.go:182-219 | literal data, block by block |
| `Rsync.SendAll` | io/rsync/gsync_client.go:100-112 | without signatures, the whole file |
| `Rsync.KnownBlockFound` | io/rsync/gsync_client.go:114-145 | a window that is a block of the old file is recognised, unless it shrank |
| `Rsync.ShrunkFound` | io/rsync/gsync_client.go:114-120 | exactly when a window that shrank is recognised |
| `Rsync.TailSentAnew` | io/rsync/gsync_client.go:114-120 | a file whose known tail is sent literally |
| `Rsync.UnchangedFile` | io/rsync/gsync_client.go:59-175 | nothing of an unchanged file is sent literally |
| `RsyncHash.SlideIsFresh` | io/rsync/gsync.go:38-44 | sliding a window gives the checksum of the next window, 32-bit wrap-around included |
| `RsyncHash.SlidesAreFresh` | io/rsync/gsync.go:38-44 | so for any number of slides |
| `RsyncHash.RollingHash` | io/rsync/gsync.go:23-35 | the loop computes the plain and the weighted sum |
| `RsyncHash.ShrunkWindow` | io/rsync/gsync_client.go:114-116 | when the rolled checksum of a shrunk window is right |
| `RingBuffer.Buffer.Insert` | io/ring/buffer.go:215-258 | exactly the longest suffix of records that leaves room stays, the new record follows, its frame is written at the old end cursor, `length` is the sum of data sizes; too big is refused; the limit case is as in Findings |
| `RingBuffer.Buffer.UpdateFirst` | io/ring/buffer.go:264-309 | the eviction loop ends with that suffix |
| `RingFormat.EvictedLongest` | io/ring/buffer.go:264-309 | that suffix fits, and no longer one does |
| `RingLog.OverlapMeans` | io/ring/buffer.go:282-301 | the wrapped comparison tells exactly whether the newcomer reaches the first record |
| `RingBuffer.Buffer.CopyFrame` | io/ring/buffer.go:237-249 | one copy or two, round the end |
| `RingLog.OverwrittenWritten` | io/ring/buffer.go:237-249 | that writes the frame and nothing else |
| `RingBuffer.Buffer.FrameOfLen` | io/ring/buffer.go:330-353 | the bytes at an offset, round the end |
| `RingBuffer.LiveFrame` | io/ring/buffer.go:317-353 | at the offset of a live record there is its frame |
| `RingBuffer.Buffer.Read` | io/ring/buffer.go:370-386 | a live cursor gives its record and the next cursor; a cursor ahead nothing; any other the first record, unless the bytes there pass for its record, and then those |
| `RingBuffer.Buffer.ReadFirst` | io/ring/buffer.go:390-398 | the first record and the cursor behind it |
| `RingBuffer.Buffer.ReadOffset` | io/ring/buffer.go:400-429 | what any offset gives, and the record at a live one |
| `RingBuffer.Buffer.Remaining` | io/ring/buffer.go:139-154 | at a live cursor, the frame bytes from there to the end |
| `RingBuffer.Buffer.Load` | io/ring/buffer.go:181-211 | a reopened log has the same records and counters |
| `RingBuffer.Buffer.constructor` | io/ring/buffer.go:94-127 | an empty log |
| `RingLog.MetaParts` | io/ring/buffer.go:159-171 | the stored counters read back |
| `RingFormat.FrameSize` | io/ring/buffer.go:22-40 | the size field is the frame's length just below the limit, and zero at it |
| `RingFormat.GetPut` | io/ring/binary.go:5-19 | a number reads back from its little-endian bytes, reduced to their range |
| `RingFollow.Drain` | io/ring/buffer.go:370-429 | from the first record on, cursor by cursor: all live records in order, then the end cursor |
| `RingFollow.DrainOn` | io/ring/buffer.go:215-258 | at the end cursor nothing has arrived, and once a record is in, it is read there |
| `RingFollow.Follow` | io/ring/buffer.go:370-429 | any run of arrivals and polls gives a reader what a log of whole records would, unless the run is `Fooled`; a reader never overtaken gets everything |
| `RingFollow.FooledLapped` | io/ring/buffer.go:370-386 | only a reader that was overtaken is fooled |
| `RingFollow.Mistaken` | io/ring/buffer.go:370-386 | one way to be fooled: a cursor with number zero at the number field of a record numbered 4 to 11 |
| `RingFollow.EmptyRead` | io/ring/buffer.go:370-386 | a run after which the zero cursor reads nothing, without an error |
| `BigQueue.Serve` | container/queue/bigqueue/bigqueue.go:32-101 | any run of enqueue, peek, dequeue, empty test and reopening, from an empty directory, answers as a first-in first-out queue does |
| `BigQueue.Queue.Enqueue` | container/queue/bigqueue/write.go:6-25 | the message, of any length, is last |
| `BigQueue.Queue.Peek` | container/queue/bigqueue/read.go:19-41 | the first message, or none |
| `BigQueue.Queue.Dequeue` | container/queue/bigqueue/read.go:44-65 | the first message is gone |
| `BigQueue.Queue.IsEmpty` | container/queue/bigqueue/bigqueue.go:83-87 | head and tail are the same just when there is no message |
| `BigQueue.Queue.constructor` | container/queue/bigqueue/bigqueue.go:32-80 | reopening finds the same messages |
| `BigQueue.Queue.WriteLength` | container/queue/bigqueue/write.go:29-48 | the length field never straddles two arenas |
| `BigQueue.Queue.WriteBytes` | container/queue/bigqueue/write.go:51-81 | the bytes lie in the stream from that place on, and nothing before it changes |
| `BigQueue.Queue.ReadLength` | container/queue/bigqueue/read.go:69-91 | the length that was written, and where the message starts |
| `BigQueue.Queue.ReadBytes` | container/queue/bigqueue/read.go:94-124 | the bytes of the stream |
| `BigQueueLayout.AdvanceDiv` | container/queue/bigqueue/read.go:59-62 | division lands where writing byte by byte ends |
| `BigQueueLayout.LaidOrder` | container/queue/bigqueue/bigqueue.go:83-87 | messages lie between head and tail, and there are none just when these are equal |
| `BigQueue.Queue.GetArena` | container/queue/bigqueue/arenamanager.go:61-88 | the arena is loaded, the list is never too short for it, and no unread byte changes |
| `BigQueue.Queue.EnsureEnoughMem` | container/queue/bigqueue/arenamanager.go:92-142 | room for one more below the limit; head and tail arenas stay; only files before the head go |
| `BigQueue.Queue.Evict` | container/queue/bigqueue/arenamanager.go:117-139 | the second loop ends with room, without going below the first arena |
| `BigQueue.Queue.Collect` | container/queue/bigqueue/arenamanager.go:92-105 | arenas before the head are unloaded and deleted |
| `BigQueue.Queue.Load` | container/queue/bigqueue/arenamanager.go:145-159 | one arena more, counted |
| `BigQueue.Queue.Unload` | container/queue/bigqueue/arenamanager.go:162-174 | one less |
| `SmoothWeighted.FairRound` | sort/selector/smooth_weighted.go:148-219 | after a reset, as many selections as the weights sum to choose each item exactly as often as its weight says, and leave the selector reset |
| `SmoothWeighted.Smooth` | sort/selector/smooth_weighted.go:191-219 | after any number of selections the current weights sum to zero, and no item is a whole turn ahead of its share |
| `SmoothWeighted.FullRound` | sort/selector/smooth_weighted.go:191-219 | the same of every run of the selection step |
| `SmoothWeighted.Periodic` | sort/selector/smooth_weighted.go:191-219 | the choices repeat from round to round |
| `SmoothWeighted.SumKept` | sort/selector/smooth_weighted.go:191-219 | the sum of current weights is kept exactly when no effective weight is reduced, and else sinks |
| `SmoothWeighted.SumSinks` | sort/selector/smooth_weighted.go:95-122 | two failures after which it is below zero |
| `SmoothWeighted.PickMany` | sort/selector/smooth_weighted.go:171-176 | any number of calls is a run of the selection step |
| `SmoothWeighted.Selector.Next` | sort/selector/smooth_weighted.go:171-219 | nobody, the only one, or the first with the greatest raised weight, which pays the total |
| `SmoothWeighted.Selector.Release` | sort/selector/smooth_weighted.go:95-122 | failures beyond the limit cost effective weight, never below zero |
| `SmoothWeighted.Selector.Reset` | sort/selector/smooth_weighted.go:148-156 | a fresh start |
| `SmoothWeighted.Selector.Add` | sort/selector/smooth_weighted.go:125-135 | one item more, the total with it |
| `SmoothWeighted.Selector.RemoveAll` | sort/selector/smooth_weighted.go:138-145 | no item, no total |
| `Cuckoo.Table.Put` | container/hashtable/cuckoo.go:208-228 | whether the key is stored, and along which path, is what the search comes to; a stored key can be read exactly when its buckets are not cut off, and then there was space at most four moves away; any other key reads as before exactly when the path does its entry no harm, and all do unless the buckets are cut off and bucket zero is full; a refusal changes nothing, and means that there is no space at most three moves away |
| `Cuckoo.Table.SlotSearch` | container/hashtable/cuckoo.go:144-194 | exactly the path `SearchOf` says: a chain of distinct buckets from one of the two to an empty slot, if they are not cut off; otherwise a path from bucket zero |
| `Cuckoo.Table.Relocate` | container/hashtable/cuckoo.go:221-223 | swapping along any path carries each entry where `Carry` says; along a chain of distinct slots all entries stay in one of their buckets, and the first slot is freed |
| `Cuckoo.Table.Get` | container/hashtable/cuckoo.go:126-135 | found exactly when one of the two buckets has the key; in a valid table, exactly when the key is there, with its value |
| `Cuckoo.Table.Delete` | container/hashtable/cuckoo.go:230-249 | just that key is gone |
| `Cuckoo.Table.Expand` | container/hashtable/cuckoo.go:175-190 | what lies beyond the slots of a node is put in the queue |
| `Cuckoo.Table.WalkBack` | container/hashtable/cuckoo.go:161-174 | the way back from an empty slot is a chain; astray, it starts in bucket zero |
| `CuckooSearch.DrySealed` | container/hashtable/cuckoo.go:155-190 | a queue that runs dry has found a closed set |
| `CuckooSearch.StaysInside` | container/hashtable/cuckoo.go:155-190 | a search never leaves a closed set |
| `CuckooSearch.NearFull` | container/hashtable/cuckoo.go:155-190 | a search that fails has seen everything at most three moves away, and found it full |
| `CuckooSearch.AstrayNext` | container/hashtable/cuckoo.go:155-190 | past the end of the queue, what is put in leads back to itself, overwritten nodes included |
| `CuckooSearch.WalkedAll` | container/hashtable/cuckoo.go:164-174 | the path read back is a chain whose buckets are all different |
| `CuckooLost.FifthKeyLost` | container/hashtable/cuckoo.go:208-228 | four keys fill a bucket that is both buckets of a fifth: that one is stored, and not found |
| `CuckooPlan.LandsReads` | container/hashtable/cuckoo.go:196-228 | after swapping along any path and writing the new entry, just the keys whose entries the path does no harm are read as before |
| `CuckooPlan.OneWrittenOver` | container/hashtable/cuckoo.go:224-226 | at most one entry is written over |
| `CuckooPlan.OneSlotHarmless` | container/hashtable/cuckoo.go:212-218 | a key put into an empty slot of its bucket harms none |
| `CuckooPlan.KeptHarmless` | container/hashtable/cuckoo.go:221-226 | a path that leads to a sound table with all the entries harms none |
| `CuckooHarm.SnaredSearch` | container/hashtable/cuckoo.go:155-190 | two buckets that lead nowhere else, and bucket zero full of entries that belong next to it: the search takes a slot of bucket zero for the start, and its own second child for the end |
| `CuckooHarm.SnaredHarm` | container/hashtable/cuckoo.go:196-228 | that path harms just the entry in slot 1 of the bucket next to bucket zero |
| `CuckooHarm.EarlierKeyLost` | container/hashtable/cuckoo.go:208-228 | fifteen keys: the last is stored and not found, and a key that was found before is no longer |
| `CuckooTable.AltTwice` | container/hashtable/cuckoo.go:84-87 | the other bucket of the other bucket is the first |
| `CuckooTable.AltHome` | container/hashtable/cuckoo.go:84-94 | an entry in one of its buckets may move to the other |
| `CuckooTable.MovedSound` | container/hashtable/cuckoo.go:196-206 | moving an entry to its other bucket keeps the table sound |
| `XorList.List.Insert` | container/xorlist/xorlist.go:143-151 | the element is in that place, every link is right, and nothing outside the list changes |
| `XorList.List.Unlink` | container/xorlist/xorlist.go:159-167 | the element is out, likewise |
| `XorLinks.NextIs` | container/xorlist/xorlist.go:59-69 | the step leads to the next element, and to nothing exactly before the tail |
| `XorLinks.PrevIs` | container/xorlist/xorlist.go:72-82 | likewise back |
| `XorLinks.InsertedLinked` | container/xorlist/xorlist.go:143-151 | three exclusive ors link an element in |
| `XorLinks.RemovedLinked` | container/xorlist/xorlist.go:159-167 | three unlink it |
| `XorList.List.constructor` | container/xorlist/xorlist.go:102-108 | an empty list |
| `XorList.List.Front` | container/xorlist/xorlist.go:118-124 | the first element and the head, or nothing |
| `XorList.List.Back` | container/xorlist/xorlist.go:127-133 | the last element and the tail, or nothing |
| `XorList.List.FindPrev` | container/xorlist/xorlist.go:169-181 | the predecessor of an element of the list, nothing for others |
| `XorList.List.FindNext` | container/xorlist/xorlist.go:183-195 | the successor, likewise |
| `XorList.List.Remove` | container/xorlist/xorlist.go:199-212 | the sequence without the element, its value returned; an element of no list is left alone |
| `XorList.List.PushFront` | container/xorlist/xorlist.go:215-218 | the element is first |
| `XorList.List.PushBack` | container/xorlist/xorlist.go:221-224 | the element is last |
| `XorList.List.InsertBefore` | container/xorlist/xorlist.go:228-236 | before the mark, if that is in the list |
| `XorList.List.InsertAfter` | container/xorlist/xorlist.go:240-248 | behind the mark, if that is in the list |
| `XorList.List.MoveToFront` | container/xorlist/xorlist.go:252-265 | the same elements, that one first |
| `XorList.List.MoveToBack` | container/xorlist/xorlist.go:269-282 | the same elements, that one last |
| `XorList.List.MoveBefore` | container/xorlist/xorlist.go:286-312 | the same elements, that one before the mark |
| `XorList.List.MoveAfter` | container/xorlist/xorlist.go:316-348 | the same elements, that one behind the mark |
| `XorWalk.PushBackList` | container/xorlist/xorlist.go:352-360 | copies of all elements of the other list, or of the same one, in order, at the back |
| `XorWalk.PushFrontList` | container/xorlist/xorlist.go:364-372 | likewise at the front, in the same order |
| `XorWalk.DeleteWhere` | container/xorlist/xorlist.go:22-30 | the documented loop comes through, with exactly the elements that do not meet the condition left, just when it never deletes what is second |
| `XorWalk.BackAndOn` | container/xorlist/xorlist.go:22-30 | one turn of it, exactly |
| `XorWalk.SecondOfThree` | container/xorlist/xorlist.go:22-30 | three elements on which it faults |
| `Consistent.ConsistentHash.GetLeast` | hash/consistent/consistent.go:338-360 | within one lap, the first host going round from the key whose load plus one is within the limit |
| `ConsistentRing.SomeRoom` | hash/consistent/consistent.go:467-490 | some host is below the limit of 1.25 times the average, whatever the loads |
| `Consistent.ConsistentHash.LoadOK` | hash/consistent/consistent.go:467-490 | whether the host is; a negative total is put to zero |
| `Consistent.ConsistentHash.GetN` | hash/consistent/consistent.go:288-328 | the first different hosts going round, as many as asked for or all |
| `Consistent.LapEnds` | hash/consistent/consistent.go:313-325 | the loop that nothing stops ends just when it did not start at the first point |
| `Consistent.ConsistentHash.NotFirst` | hash/consistent/consistent.go:362-371 | it starts there just when the point next to the key is the least |
| `Consistent.ConsistentHash.GetHash` | hash/consistent/consistent.go:237-247 | the owner of the first point at or after the key, going round: its `Home` on the ring |
| `ConsistentRing.Search` | hash/consistent/consistent.go:362-371 | the index of that point |
| `ConsistentRing.SortPoints` | hash/consistent/consistent.go:138-149 | the points in rising order |
| `Consistent.ConsistentHash.Add` | hash/consistent/consistent.go:151-178 | the host's points are on the ring, load zero; the total stays the sum of loads; every key keeps its home or moves to the new host, and taking the host's points off again gives the old ring |
| `Consistent.ConsistentHash.Remove` | hash/consistent/consistent.go:409-426 | its points and its load are gone, likewise; every key keeps its home, unless that was the host removed |
| `Consistent.ConsistentHash.UpdateLoad` | hash/consistent/consistent.go:374-384 | the load is set, likewise |
| `Consistent.ConsistentHash.Inc` | hash/consistent/consistent.go:389-392 | one more, likewise |
| `Consistent.ConsistentHash.Done` | hash/consistent/consistent.go:397-406 | one less, likewise |
| `Consistent.ConsistentHash.DelSlice` | hash/consistent/consistent.go:492-498 | the point is out of the sorted list |
| `Consistent.AddMovesOnlyThere` | hash/consistent/consistent.go:157-178 | adding a host moves keys to that host only |
| `Consistent.RemoveMovesOnlyThose` | hash/consistent/consistent.go:415-426 | removing a host moves that host's keys only |
| `TimeSpan.Union` | time/timespan/interval.go:193-239 | disjoint spans, a point in one of them exactly when it is in one of the given ones; two of them are side by side exactly when the given ones leave a seam |
| `TimeSpan.Intersection` | time/timespan/interval.go:245-293 | a point is in one of the results exactly when it is in two of the given spans |
| `TimeSpan.OverlapMeans` | time/timespan/interval.go:146-188 | the case distinction tells exactly whether there is a common point |
| `TimeSpan.MergedIs` | time/timespan/interval.go:211-221 | the merged span has exactly the points of both |
| `TimeSpan.CommonIs` | time/timespan/interval.go:267-276 | the common span has exactly the points in both |
| `TimeSpan.Filtered` | time/timespan/interval.go:256-263 | dropping ended spans loses no overlap to come |
| `TimeSpan.DisjointMeans` | time/timespan/interval.go:193-230 | disjoint spans share no point |
| `TimeSpan.DepthSome` | time/timespan/interval.go:193-230 | a point that counts at least once is in one of the spans |
| `TimeSpan.DepthTwo` | time/timespan/interval.go:245-293 | a point that counts at least twice is in two of them |
| `TimeSpan.SeamsAre` | time/timespan/interval.go:203-230 | while spans are taken in order, the result is side by side somewhere exactly when those so far leave a seam |
| `TimeSpan.Sorted` | time/timespan/interval.go:199-201 | the same spans by start, those that start together in the order given |
| `TimeSpan.SeamLeft` | time/timespan/interval.go:193-239 | three spans whose union has two side by side |

## Left out

- Integers are unbounded, except where wrap-around is the point: frame sizes, sequence numbers and the metadata of
  the ring log, the rolling checksum, the cuckoo hash and the XOR links are of fixed width. Overflow of 64-bit
  clocks, loads, weights and offsets is not modelled.
- Locks, goroutines, channels, contexts and buffer pools: every operation is one step.
- Files, memory maps and their errors: the ring file and the arenas are bytes, and every read and write succeeds.
- RingBuffer.Buffer.Insert: asks for sequence numbers and offsets below 2^64, and for a ring of at least one byte
  when the record is at the size limit, where the code divides by the capacity.
- RingBuffer.Buffer.Load: asks for the bytes another log left; other files are not modelled.
- RingFollow.Mistaken: one alignment of a stale cursor and a record; the condition for any is `Posing` in
  `RingBuffer.Buffer.Read`.
- RingFollow.Follow: leaves out records at the size limit, after which the log's counters no longer describe its bytes.
- Rsync.Transfer: assumes full-block reads, and a strong hash without a collision between a window of the new file
  and a different block of the old one.
- TimerWheel.Wheel.Run: whether a callback fails is a function of the timer, and what callbacks do is not modelled; nor is
  the end of the main loop on a tick without timers.
- TimerRun.Drive: tick times do not go back.
- BigQueue.Queue.constructor: the arena size is the one the queue was made with; the encoding of the index file and a
  mismatch of sizes are not modelled.
- Cuckoo.Table.Put: the key is not in the table yet; the code does not look, and stores a second entry. The hash
  function is any function, the table does not grow, and `Crashed` stands for a path of
  more than five slots, which indexes past the end of the path array.
- XorWalk.DeleteWhere: assumes that the difference of the head's address and another address of the list is not the
  address of an element; otherwise the loop reads that element instead of faulting.
- XorWalk.Prepend: this loop, that of `Sweep` and that of `RingFollow.FollowFrom` are written as one turn and the others.
- XorList.List.PushFront: new elements are given their addresses by the caller, and elements are never collected;
  nil marks and elements are not modelled.
- Consistent.ConsistentHash.constructor: the replicas of the hosts named have different points; the factor 1.25 is exact.
- Consistent.ConsistentHash.GetN: a negative number, which panics, and the endless case are not calls of the model.
- `GetTwo`, `Set`, `MaxLoad` and the listings of the consistent hash; `MaxLoad` overwrites a total of zero.
- TimeSpan.Intersection: asks for at least one span; on none the code indexes an empty slice. The handlers that callers
  can pass to union and intersection are not modelled.
- The other packages: generated code, typed copies of sets, caches, the other ring buffers and queues, and clients of
  databases, registries, networks and the operating system.
