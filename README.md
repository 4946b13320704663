# Operating-systems exercises: a MapReduce engine and a virtual-memory translator

This project models the sequential cores of two C++ exercises and proves
what they compute.

**The MapReduce engine (Ex3/MapReduceFramework.cpp).**

- *The progress word.* A 64-bit atomic packs three fields: the job's stage, the number of units in the stage ("total") and the number of units done ("progress"). `getJobState` decodes it.
- *Map and emit.* Each worker claims input indices from a shared counter and calls the client's `map`. That call emits pairs with `emit2` into the worker's own buffer, and the worker then sorts the buffer by key.
- *Shuffle.* Worker 0 merges the sorted buffers from their tails into groups of equal keys: `updateIntermediates`, `getMaxKey`, `updatePairs`, `shuffle`.
- *Reduce.* The workers pop groups from the back of the group list and hand each to the client's `reduce`, which emits outputs with `emit3`.

Threads, the barrier and the mutexes are not modelled. Each phase is a plain loop, and workers run one after another. In the model:

- the progress word is a natural below 2^64;
- the keys come with a strict total order `less`;
- the `map` and `reduce` callbacks are functions that return the pairs they emit, in emission order.

**The software virtual-memory translator (Ex4/VirtualMemory.cpp).**

- *Storage.* RAM holds `NUM_FRAMES` frames of `PAGE_SIZE` words. Frame 0 is the root page table, and the tables are `TABLES_DEPTH` levels deep.
- *The walk.* `traverseVirtualAddress` walks from the root, one `OFFSET_WIDTH`-bit field of the address per level. When an entry is missing, `handleEmptyAddress` asks `selectFrameForPage` for a frame. That selection runs a depth-first search (`addPageToTree`) and then preferably hands out:
  1. an empty table that is not on the current path;
  2. otherwise the first unused frame;
  3. otherwise the frame of the page at the greatest cyclic distance from the page being brought in, which is evicted first.
- *Reads and writes.* `VMread` and `VMwrite` add a bounds check and the final word access.

**How the translator is modelled.**

- `Memory` is a class over an `array<int>` of RAM words, plus a swap store. `Translator` carries ghost bookkeeping: the level of each used frame and the parent entry that names it.
- The invariant `Shape` ties that bookkeeping to RAM. The used frames are exactly 0 .. n-1, and every used frame other than the root is named by exactly one entry one level up.
- The depth-first search is specified by the sequence of nodes it visits (`PageTree.Nodes`) and the bookkeeping folded over them (`PageTree.VisitAll`). Under the invariant, the search's count is exactly the number of used frames. That is why the "first unused frame" really is unused.

The constants `OFFSET_WIDTH`, `TABLES_DEPTH`, `VIRTUAL_ADDRESS_WIDTH` and `NUM_FRAMES` are parameters (`MemoryLayout.Config`). The model assumes `1 <= OFFSET_WIDTH <= VIRTUAL_ADDRESS_WIDTH <= (TABLES_DEPTH + 1) * OFFSET_WIDTH`, `TABLES_DEPTH >= 1` and `NUM_FRAMES >= 1`.

## Model

| member | source | states |
|---|---|---|
| JobState.Encode | Ex3/MapReduceFramework.cpp:9-11 | `stage << 62 \| total << 31 \| progress` for in-range fields: the word's quotient by 2^31 is stage·2^31 + total and its remainder is progress |
| JobState.Decode | Ex3/MapReduceFramework.cpp:129-131 | the three shifts and masks of getJobState; every decoded field is in range (stage < 4, total and progress < 2^31) |
| JobState.DecodeEncode | Ex3/MapReduceFramework.cpp:9-11 | decoding an encoded word returns exactly (stage, total, progress) |
| JobState.EncodeDecode | Ex3/MapReduceFramework.cpp:129-131 | every 64-bit word is the encoding of its decoded fields, so the layout loses nothing |
| JobState.InitialWordFields | Ex3/MapReduceFramework.cpp:54 | the word a job starts with, `(long)size << 31`, decodes to stage 0 (undefined), total = input size, progress 0 |
| JobState.IncrementFields | Ex3/MapReduceFramework.cpp:197 | one `stateCounter++` on a word whose progress is below 2^31 - 1 raises progress by one and leaves stage and total unchanged |
| JobState.IncrementByFields | Ex3/MapReduceFramework.cpp:197 | n increments raise progress by n and nothing else, as long as progress stays in its field |
| JobState.IncrementByAdd | Ex3/MapReduceFramework.cpp:228 | a increments followed by b increments are a + b increments |
| JobState.OrStageFields | Ex3/MapReduceFramework.cpp:192 | or-ing `stage << 62` in sets the stage bits to the or of the old and new stage, leaves total and progress alone, and on an undefined-stage word sets exactly the new stage |
| JobState.OrStageIdempotent | Ex3/MapReduceFramework.cpp:192 | a second worker or-ing the same stage in changes nothing |
| JobState.GetJobState | Ex3/MapReduceFramework.cpp:126-138 | the reported stage is the decoded stage; the percentage is 0 when total is 0, and otherwise satisfies percentage · total = 100 · progress |
| JobState.PercentageBounds | Ex3/MapReduceFramework.cpp:132-137 | whenever progress ≤ total, the percentage lies in [0, 100] |
| JobState.StageStartFields | Ex3/MapReduceFramework.cpp:266-267 | the stage-start word `total << 31 \| stage << 62` decodes to (stage, total, 0) |
| JobState.MapEndFields | Ex3/MapReduceFramework.cpp:192-198 | after the map stage over n inputs, the word reports the map stage with total n and progress n, and or-ing the map stage in again leaves it as it is |
| JobState.ReduceEndsComplete | Ex3/MapReduceFramework.cpp:266-267 | after the reduce stage starts with n groups and all n are counted, progress equals total |
| JobState.ShuffleStartAsWrittenIsWrong | Ex3/MapReduceFramework.cpp:263-264 | the word as line 263 computes it: 2 intermediate pairs give total 0, and 3 pairs give the reduce stage with total 2^31 - 1 |
| JobState.ShuffleStart | Ex3/MapReduceFramework.cpp:263-264 | the corrected shuffle-start word decodes to the shuffle stage, total = the number of intermediate pairs, progress 0 |
| JobState.ShuffleEndsComplete | Ex3/MapReduceFramework.cpp:225-228 | starting from the shuffle-start word, one increment per moved pair leaves progress equal to total once all pairs are moved |
| KeyOrder.OrderLawsAll | Ex3/MapReduceFramework.cpp:181-183 | the key order is irreflexive, transitive and total, the laws comparePairs relies on |
| KeyOrder.SortPairsSorted | Ex3/MapReduceFramework.cpp:200 | the sorted buffer is non-decreasing under comparePairs |
| KeyOrder.SortPairsPermutation | Ex3/MapReduceFramework.cpp:200 | the sorted buffer holds exactly the pairs it held before (same multiset) |
| KeyOrder.InsertSorted | Ex3/MapReduceFramework.cpp:200 | inserting a pair into a sorted buffer keeps it sorted |
| KeyOrder.InsertMultiset | Ex3/MapReduceFramework.cpp:200 | inserting a pair adds exactly that pair |
| KeyOrder.ReverseMultiset | Ex3/MapReduceFramework.cpp:226-227 | pairs popped from a tail are the tail's pairs |
| KeyOrder.AllPairsUpdate | Ex3/MapReduceFramework.cpp:226-227 | replacing one buffer changes the pool of all pairs by exactly that buffer's old and new contents |
| KeyOrder.AllPairsCard | Ex3/MapReduceFramework.cpp:167 | the number of pairs in the pool is the sum of the buffer sizes |
| KeyOrder.ReverseDescending | Ex3/MapReduceFramework.cpp:271-283 | popping groups that shuffle appended in descending key order visits them in ascending key order |
| KeyOrder.OneGroupPerKey | Ex3/MapReduceFramework.cpp:250-255 | when ascending groups hold exactly the pool of pairs, every pair lies in a group of its key, and exactly one group has that key |
| ShuffleMerge.EraseFirstAscending | Ex3/MapReduceFramework.cpp:236-241 | on a list without repetition, `find` + `erase` removes exactly that index and keeps the rest ascending |
| ShuffleMerge.KeptSplit | Ex3/MapReduceFramework.cpp:225-233 | the tail loop stops where the prefix left is empty or ends in a key less than maxKey and every popped pair's key is not less than maxKey |
| ShuffleMerge.KeptUnique | Ex3/MapReduceFramework.cpp:225-233 | that stopping point is unique |
| ShuffleMerge.CutPool | Ex3/MapReduceFramework.cpp:226-227 | moving a buffer's tail into the group neither loses nor duplicates a pair |
| ShuffleMerge.SweepPool | Ex3/MapReduceFramework.cpp:224-234 | one updatePairs pass only moves pairs: group + remaining buffers = the buffers before, as multisets and in size |
| ShuffleMerge.SweepFrame | Ex3/MapReduceFramework.cpp:224 | buffers not in hasData are untouched |
| ShuffleMerge.SweepAt | Ex3/MapReduceFramework.cpp:225-233 | each listed buffer is cut exactly at the point the tail loop stops |
| ShuffleMerge.SweepEmptied | Ex3/MapReduceFramework.cpp:229-231 | an index is recorded for removal exactly when it is listed and its buffer ran empty |
| ShuffleMerge.SweepGroupNonEmpty | Ex3/MapReduceFramework.cpp:225-226 | a listed buffer whose last key is not less than maxKey gives at least one pair |
| ShuffleMerge.Sandwich | Ex3/MapReduceFramework.cpp:225 | a key not less than the maximum tail key, and not above a tail, equals the maximum |
| ShuffleMerge.SweepGroupKeys | Ex3/MapReduceFramework.cpp:224-233 | when every listed buffer is sorted with last key at most maxKey, every pair moved has key maxKey |
| ShuffleMerge.SweepRemaining | Ex3/MapReduceFramework.cpp:225-233 | a buffer the pass leaves behind is sorted and holds only keys less than maxKey |
| ShuffleMerge.RemovedIndices | Ex3/MapReduceFramework.cpp:236-241 | after the erase loop, hasData again lists exactly the non-empty buffers, ascending |
| ShuffleMerge.SortedPrefix | Ex3/MapReduceFramework.cpp:227 | popping from a sorted buffer leaves it sorted |
| ShuffleMerge.SortedBelowLast | Ex3/MapReduceFramework.cpp:212-215 | no key in a sorted buffer exceeds its last key, so the maximum tail key is the maximum key overall |
| ShuffleMerge.ShuffleInit | Ex3/MapReduceFramework.cpp:244-246 | before the first round the shuffle invariant holds with no groups |
| ShuffleMerge.RoundGroup | Ex3/MapReduceFramework.cpp:250-255 | with sorted buffers and maxKey the maximum tail key, the round's group is non-empty with every key equal to maxKey, and every remaining pair's key is less than maxKey |
| ShuffleMerge.ShuffleStep | Ex3/MapReduceFramework.cpp:250-255 | one round keeps the shuffle invariant (sorted buffers, hasData exact, groups descending with keys above all remaining keys, pool preserved) and strictly shrinks the buffers |
| ShuffleMerge.DescendingAppend | Ex3/MapReduceFramework.cpp:254 | a group whose key is below every earlier group's extends a strictly descending list |
| ShuffleMerge.PoolAppend | Ex3/MapReduceFramework.cpp:254 | moving a group onto the group list keeps the pool of pairs |
| ShuffleMerge.ShuffleDone | Ex3/MapReduceFramework.cpp:250 | when hasData is empty, every buffer is empty and the groups hold exactly the starting pairs |
| ShuffleMerge.ReduceOrder | Ex3/MapReduceFramework.cpp:271-283 | the groups reduce receives, in the order it receives them, are ascending by key and hold the same pairs |
| MapReduceFramework.Range | Ex3/MapReduceFramework.cpp:193-199 | the indices lo .. hi-1 in increasing order |
| MapReduceFramework.ReduceOutputsSnoc | Ex3/MapReduceFramework.cpp:280 | one more reduce call appends exactly that call's outputs |
| MapReduceFramework.Job.constructor | Ex3/MapReduceFramework.cpp:41-60 | createJobContext: empty worker buffers and groups, all counters 0, the initial progress word. The constructor also starts from an empty output; createJobContext only keeps a pointer to the caller's output vector and does not clear it, so `Run` states the output relative to what it held before |
| MapReduceFramework.Job.Emit2 | Ex3/MapReduceFramework.cpp:164-168 | appends exactly one pair to the calling worker's buffer, changes no other buffer, and raises intermediateCounter by one |
| MapReduceFramework.Job.Emit3 | Ex3/MapReduceFramework.cpp:170-179 | appends exactly one output and raises outputCounter by one |
| MapReduceFramework.Job.CallMap | Ex3/MapReduceFramework.cpp:196 | records one map call on that index; the worker's buffer grows by exactly the pairs map emits, and intermediateCounter by their number |
| MapReduceFramework.Job.MapStop | Ex3/MapReduceFramework.cpp:193-199 | a worker claims up to the end of the input, or nothing when the input is used up |
| MapReduceFramework.Job.MapInputs | Ex3/MapReduceFramework.cpp:193-199 | calls map once per claimed index, in increasing order; the buffer grows by the emitted pairs; progress rises once per index; the counter ends one past the stop |
| MapReduceFramework.Job.MapAndSort | Ex3/MapReduceFramework.cpp:185-201 | marks the map stage, maps the claimed indices, and leaves the worker's buffer sorted and a permutation of its old contents plus the emitted pairs; every other buffer is unchanged, and the order of pairs with equal keys is not promised |
| MapReduceFramework.Job.MapPhase | Ex3/MapReduceFramework.cpp:258-260 | with the workers run in turn: map is called exactly once for each index 0 .. n-1 in order, every buffer is sorted, the buffers hold exactly the emitted pairs, intermediateCounter equals their number, and the word reports the map stage with n of n done |
| MapReduceFramework.Job.AllPairsSplit | Ex3/MapReduceFramework.cpp:258-260 | with every buffer but the first empty, the pool is the first buffer |
| MapReduceFramework.Job.UpdateIntermediates | Ex3/MapReduceFramework.cpp:203-209 | hasData is exactly the ascending list of indices of non-empty buffers |
| MapReduceFramework.Job.GetMaxKey | Ex3/MapReduceFramework.cpp:211-219 | the key returned is some listed buffer's last key, and no listed buffer's last key is greater |
| MapReduceFramework.Job.MoveTail | Ex3/MapReduceFramework.cpp:225-233 | pops from the tail into the group exactly the pairs past the stopping point, in pop order; reports emptied exactly when nothing is left; counts one unit per pair |
| MapReduceFramework.Job.GatherTails | Ex3/MapReduceFramework.cpp:223-234 | the buffers, group and removal list are those of the pass `SweepTails`, and progress rises by the group's size |
| MapReduceFramework.Job.RemoveIndices | Ex3/MapReduceFramework.cpp:236-241 | the result is ascending and holds exactly the listed indices not recorded for removal |
| MapReduceFramework.Job.UpdatePairs | Ex3/MapReduceFramework.cpp:221-242 | buffers and group are those of SweepTails; the new hasData lists exactly the non-empty buffers, ascending; progress rises by the group's size |
| MapReduceFramework.Job.ShuffleRound | Ex3/MapReduceFramework.cpp:250-255 | one loop pass: maxKey is the maximum tail key, the new group is appended, hasData is updated, and progress counts the pairs moved |
| MapReduceFramework.Job.Shuffle | Ex3/MapReduceFramework.cpp:244-256 | terminates with every buffer empty; the groups are strictly descending by key, each non-empty with a single key; together they are a permutation of all the starting pairs; progress rises by the number of pairs |
| MapReduceFramework.Job.ShufflePhase | Ex3/MapReduceFramework.cpp:262-268 | publishes the shuffle stage, shuffles, and publishes the reduce stage with the number of groups as total, which is at most the number of pairs |
| MapReduceFramework.Job.GroupCountBound | Ex3/MapReduceFramework.cpp:266-267 | there are no more groups than pairs, so the reduce total fits its field |
| MapReduceFramework.Job.CallReduce | Ex3/MapReduceFramework.cpp:280 | records one reduce call on the group; the output grows by exactly what reduce emits, and outputCounter by their number |
| MapReduceFramework.Job.ReducePhase | Ex3/MapReduceFramework.cpp:270-283 | pops groups from the back until none is left: reduce is called once per group, last group first; the outputs are those calls' outputs in order; progress rises once per group |
| MapReduceFramework.Job.ShuffleAndReduce | Ex3/MapReduceFramework.cpp:262-283 | worker 0's shuffle, then the drain: reduce receives the descending groups in reverse, and the word ends at the reduce stage with every group counted |
| MapReduceFramework.Job.Run | Ex3/MapReduceFramework.cpp:258-285 | a whole job: map once per input in order; reduce receives groups in ascending key order which together are a permutation of all emitted pairs; the output is the reduce outputs in call order; the word reports the reduce stage with progress = total |
| MemoryLayout.Absolute | Ex4/VirtualMemory.cpp:23-29 | the result is non-negative and is the value or its negation |
| MemoryLayout.Min | Ex4/VirtualMemory.cpp:31-37 | the result is one of the two arguments and no greater than either |
| MemoryLayout.CalculateOffset | Ex4/VirtualMemory.cpp:71-74 | the table index at a depth is below PAGE_SIZE |
| MemoryLayout.PagePrefixShift | Ex4/VirtualMemory.cpp:152 | the page index built as `(pageIndex << OFFSET_WIDTH) + i` over the first k levels is the address shifted right past the later fields |
| MemoryLayout.PageFromOffsets | Ex4/VirtualMemory.cpp:71-74 | the indices of all TABLES_DEPTH levels rebuild the page number `va >> OFFSET_WIDTH`, and with the last field they rebuild the address |
| MemoryLayout.NumPagesPow2 | Ex4/VirtualMemory.cpp:125 | NUM_PAGES is 2^(VIRTUAL_ADDRESS_WIDTH - OFFSET_WIDTH), at least 1 |
| MemoryLayout.CyclicDistanceBounds | Ex4/VirtualMemory.cpp:125 | for pages in range, `min(NUM_PAGES - \|a-b\|, \|a-b\|)` lies in [0, NUM_PAGES/2], is symmetric, and is 0 exactly for the same page |
| MemoryLayout.UpdateMaxPageInfo | Ex4/VirtualMemory.cpp:124-133 | the candidate is replaced by the page exactly when the page's distance is strictly greater; the kept distance never falls |
| PhysicalMemory.AddrBounds | Ex4/VirtualMemory.cpp:48 | `frame * PAGE_SIZE + offset` lies in RAM for every frame and offset |
| PhysicalMemory.AddrInjective | Ex4/VirtualMemory.cpp:120 | distinct (frame, offset) pairs name distinct words |
| PhysicalMemory.CopyFrameEntry | Ex4/VirtualMemory.cpp:83 | restoring a page into a frame changes the words of that frame and no other |
| PhysicalMemory.CopyFrameContents | Ex4/VirtualMemory.cpp:83 | after a restore, the frame holds exactly the saved page |
| PhysicalMemory.Memory.PMread | Ex4/VirtualMemory.cpp:48 | returns the word at the RAM index |
| PhysicalMemory.Memory.PMwrite | Ex4/VirtualMemory.cpp:60 | sets exactly the word at the RAM index |
| PhysicalMemory.Memory.PMevict | Ex4/VirtualMemory.cpp:216 | saves the frame's words in the swap store under the page number |
| PhysicalMemory.Memory.PMrestore | Ex4/VirtualMemory.cpp:83 | a page held in swap is copied into the frame and leaves the store; otherwise RAM and swap are unchanged |
| PageTree.VisitAllAppend | Ex4/VirtualMemory.cpp:148-157 | the search below a concatenation is the search below the first part, continued below the second |
| PageTree.LeafVisit | Ex4/VirtualMemory.cpp:139-141 | at a page the search counts one frame, weighs the page, and goes no deeper |
| PageTree.EmptyChildren | Ex4/VirtualMemory.cpp:148-157 | an all-zero table has nothing below it |
| PageTree.ScanStep | Ex4/VirtualMemory.cpp:149-156 | one more entry of the scan: below a non-zero entry the search continues with the page index `(pageIndex << OFFSET_WIDTH) + i`; a zero entry adds nothing |
| PageTree.TableVisit | Ex4/VirtualMemory.cpp:137-171 | at a table the search counts the table, scans its entries, and then records the table when it is a candidate |
| PageTree.ChildrenNone | Ex4/VirtualMemory.cpp:144-159 | nothing is visited below the entries exactly when they are all 0, so `isEmptyFrame` means "all entries 0" |
| PageTree.ChildrenEmptyStep | Ex4/VirtualMemory.cpp:150-151 | the scan has found nothing below the entries read so far exactly when each entry read was 0, so `isEmptyFrame` is cleared by the first non-zero entry |
| PageTree.BoundedChild | Ex4/VirtualMemory.cpp:149 | the search below a non-zero entry reads RAM words only |
| PageTree.VisitAllCount | Ex4/VirtualMemory.cpp:137 | frameIndex rises by exactly one per visited node |
| PageTree.VisitAllEmpty | Ex4/VirtualMemory.cpp:159-170 | the table recorded is the last candidate visited (an empty table not on the path); with no candidate nothing is recorded |
| PageTree.VisitAllMax | Ex4/VirtualMemory.cpp:124-133 | the page kept is at the greatest distance of any visited page, the first page at that distance in visiting order, and is a visited page or the initial record |
| TreeShape.RootLevel | Ex4/VirtualMemory.cpp:204 | only the root frame 0 lies at level 0 |
| TreeShape.AncStep | Ex4/VirtualMemory.cpp:153-154 | the ancestor one level up is the parent of the ancestor at the next level |
| TreeShape.AncRoot | Ex4/VirtualMemory.cpp:204 | every used frame descends from the root |
| TreeShape.NodesSound | Ex4/VirtualMemory.cpp:135-171 | the search below a used table visits only used frames, each once, at their level, through their parent entry, all descending from that table |
| TreeShape.ChildrenSound | Ex4/VirtualMemory.cpp:148-157 | the same for the scan below entries 0 .. n-1, with every node below one of those entries |
| TreeShape.JoinSound | Ex4/VirtualMemory.cpp:150-155 | a non-zero entry adds the frames below it, which lie below no earlier entry |
| TreeShape.SkipSound | Ex4/VirtualMemory.cpp:150 | a zero entry adds nothing |
| TreeShape.ChildrenContain | Ex4/VirtualMemory.cpp:148-157 | the scan reaches every node below each non-zero entry |
| TreeShape.WalkVisited | Ex4/VirtualMemory.cpp:152-154 | what the search visits below the frame the walk of an address reaches at level k, with the page index built from that address's first k fields, is visited from the root |
| TreeShape.PageVisited | Ex4/VirtualMemory.cpp:152 | the page a mapped address reaches is weighed by the search under page number `va >> OFFSET_WIDTH` |
| TreeShape.NodesComplete | Ex4/VirtualMemory.cpp:135-171 | every used frame below a table is visited by the search from it |
| TreeShape.DistinctCard | Ex4/VirtualMemory.cpp:137 | nodes with distinct frames have as many frames as nodes |
| TreeShape.NodeCount | Ex4/VirtualMemory.cpp:137 | the search from the root visits as many nodes as there are used frames, each a used frame at its level and reached through its parent entry, so its count is the number of used frames |
| TreeShape.ShapeBounded | Ex4/VirtualMemory.cpp:149 | under the invariant the search reads RAM words only |
| TreeShape.WalkPlaced | Ex4/VirtualMemory.cpp:100-113 | the frames on a present path are used frames, one per level |
| TreeShape.SearchFacts | Ex4/VirtualMemory.cpp:199-222 | under the invariant: frameIndex is the number of used frames; a recorded table is a used, empty table above the last level, not among the path tables, and named by the recorded entry; a recorded page is a used page named by the recorded entry |
| TreeShape.ParentEntry | Ex4/VirtualMemory.cpp:192 | the parent entry of a used frame lies in RAM, one level up, and names the frame |
| TreeShape.InitialShape | Ex4/VirtualMemory.cpp:39-41 | after VMinitialize the root table alone satisfies the invariant |
| TreeUpdate.WriteEntry | Ex4/VirtualMemory.cpp:81 | writing one RAM word changes that entry and no other |
| TreeUpdate.CopyFrameOutside | Ex4/VirtualMemory.cpp:83 | restoring into a frame leaves every other frame as it was |
| TreeUpdate.ZeroFrameEmpty | Ex4/VirtualMemory.cpp:118-122 | a zeroed frame is an empty table |
| TreeUpdate.MoveWords | Ex4/VirtualMemory.cpp:81 | clearing the old parent entry and writing the new one moves the frame |
| TreeUpdate.LinkWords | Ex4/VirtualMemory.cpp:81 | the single write that links a fresh frame |
| TreeUpdate.Childless | Ex4/VirtualMemory.cpp:206-218 | a page or an empty table is nobody's parent, so it can be moved |
| TreeUpdate.MoveShape | Ex4/VirtualMemory.cpp:206-218 | hanging a childless used frame under a missing entry keeps the invariant |
| TreeUpdate.AddShape | Ex4/VirtualMemory.cpp:211-212 | hanging the first unused frame under a missing entry keeps the invariant |
| TreeUpdate.PageWriteShape | Ex4/VirtualMemory.cpp:60 | changing only a page's words keeps the invariant |
| TreeUpdate.PathKept | Ex4/VirtualMemory.cpp:100-113 | a walk that meets the same entries ends at the same frames |
| TreeUpdate.MovePath | Ex4/VirtualMemory.cpp:81 | after a frame is linked under the missing entry, the walk is unchanged above it and reaches that frame one level further |
| TreeUpdate.PageWritePath | Ex4/VirtualMemory.cpp:60 | changing only the words of the page a walk ends at keeps that walk |
| TreeUpdate.Relink | Ex4/VirtualMemory.cpp:76-88 | reusing an empty table off the path, or an evicted page, for the missing entry keeps the invariant and extends the walk by that frame |
| TreeUpdate.Attach | Ex4/VirtualMemory.cpp:76-88 | the same for the first unused frame |
| TreeUpdate.LinkHandout | Ex4/VirtualMemory.cpp:76-88 | linking any frame the selection may hand out under the missing entry keeps the invariant and extends the walk by one level, through a frame other than the root |
| TreeUpdate.PageWrite | Ex4/VirtualMemory.cpp:55-65 | a write to the page an address reaches keeps the invariant and the walk, and the word then holds the value |
| TreeUpdate.MappedStep | Ex4/VirtualMemory.cpp:105-113 | a walk kept above and extended by a present entry is present one level further |
| TreeUpdate.NotedProtects | Ex4/VirtualMemory.cpp:103 | every table on the walk so far is in pageTableAddresses, so the selection never hands it out |
| TreeUpdate.NotedStep | Ex4/VirtualMemory.cpp:112 | noting the frame reached one level further keeps pageTableAddresses equal to the walk |
| VirtualMemory.Translator.InitializeFrame | Ex4/VirtualMemory.cpp:118-122 | sets the words of the frame to 0 and leaves every other word unchanged |
| VirtualMemory.Translator.VMinitialize | Ex4/VirtualMemory.cpp:39-41 | zeroes frame 0, which is then the only table, and establishes the invariant |
| VirtualMemory.Translator.UpdatePageTableAddresses | Ex4/VirtualMemory.cpp:67-69 | sets exactly element depth + 1 |
| VirtualMemory.Translator.AddPageToTree | Ex4/VirtualMemory.cpp:135-171 | ends with the bookkeeping of the depth-first search over the nodes below the frame (`VisitAll` over `Nodes`) |
| VirtualMemory.Translator.ScanTable | Ex4/VirtualMemory.cpp:144-157 | the search below every entry in turn; isEmptyFrame holds exactly when every entry is 0 |
| VirtualMemory.Translator.ScanEntry | Ex4/VirtualMemory.cpp:149-155 | returns the entry read, and continues the search below it when it is non-zero |
| VirtualMemory.Translator.OnPath | Ex4/VirtualMemory.cpp:159-166 | found exactly when the frame is among pageTable[0 .. TABLES_DEPTH-1] |
| VirtualMemory.Translator.ClearFrame | Ex4/VirtualMemory.cpp:191-193 | sets exactly the recorded parent entry to 0 |
| VirtualMemory.Translator.ClearMaxPageFrame | Ex4/VirtualMemory.cpp:195-197 | sets exactly the recorded page's parent entry to 0 |
| VirtualMemory.Translator.SelectFrameForPage | Ex4/VirtualMemory.cpp:199-222 | in this order: the recorded empty table (its parent entry cleared); else frameIndex if below NUM_FRAMES (RAM untouched); else the farthest page (saved to swap, parent entry cleared); else -1. The exact RAM and swap store after each case are stated (`VirtualMemory.Selected`). -1 happens only when every frame is used. Any frame returned is not the root and can be relinked |
| VirtualMemory.Translator.HandleEmptyAddress | Ex4/VirtualMemory.cpp:76-88 | the state after the selection is the one `selectFrameForPage` promises (`VirtualMemory.Selected`). On -1 nothing changes and every frame is used. Otherwise the state after it is exactly the link-and-fill step (`VirtualMemory.Filled`): the missing entry names the frame, which is never the root. At the last level the page is restored from swap and dropped from it when swap holds it; above the last level the frame is zeroed and is an empty table. The walk above is unchanged and now reaches the frame |
| VirtualMemory.Translator.LinkFrame | Ex4/VirtualMemory.cpp:81-87 | the whole new RAM and swap store (`VirtualMemory.Filled`): the frame is written into the missing entry. At the last level the saved page is copied into the frame and leaves swap, or, when swap does not hold it, the frame is left as it is. Above the last level the frame is zeroed. No other word or swap entry changes. The invariant is kept and the walk extended |
| VirtualMemory.Translator.TraverseVirtualAddress | Ex4/VirtualMemory.cpp:90-116 | returns the frame of the page the address maps to, with the whole path then present, or -1 only when every frame is used; on a path already present it changes nothing and returns the leaf entry |
| VirtualMemory.Translator.Descend | Ex4/VirtualMemory.cpp:100-113 | one level of the walk: reads or allocates the entry, notes it in pageTableAddresses, and extends the present path; an entry already present is only read |
| VirtualMemory.Translator.VMread | Ex4/VirtualMemory.cpp:43-53 | 0 without any change for an address outside the virtual memory; 1 with the word `frame * PAGE_SIZE + va % PAGE_SIZE` of the mapped page; on a mapped address no change at all |
| VirtualMemory.Translator.VMwrite | Ex4/VirtualMemory.cpp:55-65 | 0 without any change outside the virtual memory; 1 with the address then mapped and its word equal to the value; on a mapped address exactly that one word changes |
| VirtualMemory.Translator.WriteThenRead | Ex4/VirtualMemory.cpp:43-65 | a read right after a successful write to the same address returns the written value |

## Left out

- PhysicalMemory.cpp is not part of this model. PMread and PMwrite are exact array accesses. PMevict saves a frame under its page number, and PMrestore copies a saved page back and drops it from the store (a page never evicted leaves the frame as it is). Both behaviours are read off their names and uses.
- PhysicalMemory.Memory.PMevict: overwrites an entry already in the swap store rather than failing on it.
- Threads, the barrier, the mutexes and `exit(1)` on a failing system call are left out. Each phase of runSingleThread is a plain loop, and the workers run one after another. So the first worker claims every input index, and the reduce drain runs in one worker.
- Atomic memory ordering is left out: the counters are plain fields.
- `closeJobHandle`, `waitForJob`, `startMapReduceJob` and the thread plumbing: allocation and joining only.
- MapReduceFramework.Job.MapAndSort: `std::sort` is modelled by an insertion sort. Only sortedness and the permutation are claimed, not the order of equal keys.
- JobState.GetJobState: the float percentage is a real number, so float rounding is not modelled.
- The bodies of the client's map and reduce are not modelled. They are functions returning the pairs they emit.
- VirtualMemory.Translator.VMread: the `word_t* value` out-parameter is modelled as an input `previous` and a result `value`. A failed read leaves the value as it was.
- MapReduceFramework.Job.MapPhase, MapReduceFramework.Job.ShufflePhase, MapReduceFramework.Job.ShuffleAndReduce and MapReduceFramework.Job.Run require fewer than 2^31 inputs and fewer than 2^31 intermediate pairs. The source has no such check. For larger jobs it overflows in three places: the 31-bit total field of the progress word (line 54), the `std::atomic<int>` counters (lines 27-29), and `static_cast<int>(inputVector.size())` (line 194). Such jobs are not modelled.
- MapReduceFramework.Job.constructor: starts from an empty output vector, whereas createJobContext (line 48) keeps the caller's vector as it is. `Run` states its output relative to the output it started with.
- The C `int` width of `pageIndex << OFFSET_WIDTH`, of frame numbers and of the `(int)` casts is not modelled. Addresses and page numbers are unbounded naturals, and the model assumes every frame index fits.
- MemoryLayout.Absolute: `absolute(INT_MIN)` overflow is not modelled, for the same reason.
- `pageTableAddresses[TABLES_DEPTH]` is left uninitialized, as in the source. The selection reads only the first TABLES_DEPTH elements.
- VirtualMemory.Translator.TraverseVirtualAddress: on -1 the model states only that every frame is used. The tables already linked on the way down stay in place, and no contract describes them.
- The data of pages is not tracked across eviction and restore. The invariant speaks about tables only: the contents of a last-level frame are unconstrained apart from what VMwrite and VMread state about one word.
- VirtualMemory.Translator.ScanTable, ScanEntry, OnPath, LinkFrame and Descend are the loops and the second half of the source functions, split out as methods of their own. They keep the source's order of reads and writes.
- JobState.ShuffleStart: the model uses the widened word (see Findings), not the 32-bit expression at line 263.

## Findings

| source | as written | input that shows it | evidently intended | confidence | as-written member | corrected member |
|---|---|---|---|---|---|---|
| Ex3/MapReduceFramework.cpp:263-264 | `intermediateCounter->load()<<31` shifts a 32-bit `int` before it is widened to 64 bits. Only the low 32 bits survive, and the sign bit spreads into the upper word | 2 intermediate pairs: total reads 0, so the shuffle percentage stays 0. 3 pairs: the word reports the reduce stage with total 2^31 - 1 | widen the counter to 64 bits before shifting, as line 266 does, so the word reports the shuffle stage with total = number of pairs | not executed | JobState.ShuffleStartAsWritten (counterexample JobState.ShuffleStartAsWrittenIsWrong) | JobState.ShuffleStart (used by MapReduceFramework.Job.ShufflePhase; JobState.ShuffleEndsComplete) |
