# Eight verified algorithm exercises

This project is a Dafny model of eight single-file C++ exercises from an
algorithms course, with proofs of what each one computes. Every exercise is
its own module, in its own file:

| module | file | exercise |
|---|---|---|
| `MemoryManager` | `memory_manager.dfy` | A memory manager over the cells `1..memory_size`. Allocation always takes the front of the longest free segment, choosing the leftmost among equal lengths. Freeing merges the segment with its free neighbours. The free segments are kept in a max-heap with erase-by-position, and every segment carries its heap slot. A query log is replayed against the manager. |
| `KStatistics` | `k_statistics.dfy` | The k-th smallest value of a sliding window, moved by `L`/`R` commands. Two indexed heaps split the window: a max-heap holds its k smallest values and a min-heap the rest. |
| `CyclicParking` | `cyclic_parking.dfy` | A cyclic parking lot. A min segment tree over slot numbers answers "first free slot from e, wrapping around" for arrivals and frees slots on departures. |
| `FixedSet` | `fixed_set.dfy` | Two-level perfect hashing of a fixed set of integers. |
| `FootballTeam` | `football_team.dfy` | A Hoare-partition quicksort of the players, then a sliding-window scan for the most efficient "solidary" run of consecutive sorted players. |
| `Triangles` | `triangles.dfy` | Counts the similarity classes of triangles. Each triangle is normalised (sides sorted, divided by their gcd) and the normal forms go into a hash table of buckets. |
| `DominatingChain` | `dominating_chain.dfy` | The longest chain of triples, each strictly greater than the one before in every component, found by an O(n²) dynamic programme. |
| `AliBaba` | `ali_baba.dfy` | Ali-Baba's coins. The coins are sorted and those at a repeated position dropped. A back-and-forth walk is simulated, and the earliest start time that works is searched for, with a bound. |

`arithmetic.dfy` (module `Arithmetic`) holds two facts about products and
Euclidean division that several modules share.

## How the model is shaped

Code that changes state step by step is imperative Dafny here:

- The memory manager is a `class`. The source's `std::list` of segments in
  address order is a `seq` of handles, and the segments themselves are a
  `map` from handle to bounds. The heap is a `seq` of handles, and each
  segment's `heap_index` is a `map` from handle to token. The heap methods
  sift in `while` loops and by recursion, as the source does. `Allocate` and
  `Free` are proved against functions on an abstract view of the list: a
  `seq` of blocks of the form (left, right, free).
- The two heaps of `KStatistics` are objects of a class `Heap`. Both share
  one `HeapElements` object holding the values, the `min_heap`/`max_heap`
  flags and the `heap_index` tokens. The command loop keeps a window
  invariant (`Window`).
- The segment tree of `CyclicParking` is an `array` that
  `BuildSegmentTree` and `Update` write recursively. `FootballTeam`
  partitions and sorts an `array` of players in place.
- `erase_duplicates`, the gcd loop, `get_max_chain`, the fixed set's
  construction loops and the answer loops are methods with loop invariants.
  Each is proved equal to a recursive function, or to the property it
  promises.

The calls to `std::mt19937` in `FixedSet::Initialize` and in `QuickSort` are
replaced by a sequence of draws passed in as an input. An operation that
runs out of draws reports it (`initialized == false`, `done == false`), and
that is the only case in which it reports failure.

## Model

| member | source | states |
|---|---|---|
| MemoryManager.Unite | algorithms/memory_manager/main.cpp:152-154 | The united segment starts at one of the two lefts, ends at one of the two rights, and covers both segments. |
| MemoryManager.NotLessTransitive | algorithms/memory_manager/main.cpp:160-168 | "Not smaller" under the size comparator (longer first, then the smaller left) is transitive. |
| MemoryManager.LessAsymmetric | algorithms/memory_manager/main.cpp:160-168 | For segments with different lefts the comparator is asymmetric, so it is a strict order on the free segments. |
| MemoryManager.TopIsBest | algorithms/memory_manager/main.cpp:49-51 | In an ordered heap no slot beats the root, so `top()` is a longest free segment and the leftmost among equal lengths. |
| MemoryManager.SiftUpStep | algorithms/memory_manager/main.cpp:108-118 | One step of `SiftUp` (swap with the parent when the parent is smaller) moves the single possible violation of heap order to the parent. |
| MemoryManager.UpReadyAtRoot | algorithms/memory_manager/main.cpp:108-118 | When `SiftUp` reaches the root the heap is ordered. |
| MemoryManager.SiftDownSwap | algorithms/memory_manager/main.cpp:120-138 | Swapping a slot with its dominating son moves the violation into that son's subtree. |
| MemoryManager.SiftDownReturn | algorithms/memory_manager/main.cpp:120-138 | After the recursive `SiftDown` returns, the slot is ordered with its parent and nothing outside its subtree changed. |
| MemoryManager.SiftDownStop | algorithms/memory_manager/main.cpp:120-138 | When no son beats the slot, `SiftDown` may stop: `SiftUp` is then ready at that slot. |
| MemoryManager.EraseAsWritten | algorithms/memory_manager/main.cpp:38-47 | `Erase(index)` as the source writes it leaves one slot fewer and starts both sifts at `index`, whichever slot that is. |
| MemoryManager.EraseReady | algorithms/memory_manager/main.cpp:38-47 | Moving the last slot into an erased slot leaves only the edges around that slot possibly broken. |
| MemoryManager.EraseLastSlotAsWritten | algorithms/memory_manager/main.cpp:38-47 | As written, erasing the last of two or more slots leaves the erased segment with a slot token instead of `kNullIndex`, and starts the sifts one past the end. |
| MemoryManager.TilingIncreasing | algorithms/memory_manager/main.cpp:205-210 | Segments that tile `[1, memory_size + 1)` have strictly increasing lefts. |
| MemoryManager.BestFree | algorithms/memory_manager/main.cpp:186-189 | Returns -1 exactly when no block is free; otherwise the index of the longest free block, leftmost among equal lengths. |
| MemoryManager.BestUnique | algorithms/memory_manager/main.cpp:160-168 | On increasing blocks there is only one best free block. |
| MemoryManager.AllocateSpec | algorithms/memory_manager/main.cpp:212-231 | A failed allocation changes no block. A successful one carves the front of the best free block, and its position is that block's left. |
| MemoryManager.AllocateFailsIffNoFit | algorithms/memory_manager/main.cpp:213-219 | Allocation fails exactly when every free block is shorter than the request. |
| MemoryManager.CarveKeepsLayout | algorithms/memory_manager/main.cpp:220-230 | Carving a free block keeps the tiling, the "no two adjacent free blocks" property and address order. |
| MemoryManager.AllocateKeepsLayout | algorithms/memory_manager/main.cpp:212-231 | An allocation keeps the tiling and the "no two adjacent free blocks" property. |
| MemoryManager.FreeKeepsLayout | algorithms/memory_manager/main.cpp:233-241 | Freeing an allocated block keeps the tiling and the "no two adjacent free blocks" property. |
| MemoryManager.CarveThenFree | algorithms/memory_manager/main.cpp:220-241 | Freeing the block just carved, whose neighbours are not free, restores the blocks exactly. |
| MemoryManager.FreeAfterAllocate | algorithms/memory_manager/main.cpp:212-241 | Freeing what a successful allocation returned gives back the blocks from before the allocation. |
| MemoryManager.AllFreeIsWhole | algorithms/memory_manager/main.cpp:205-257 | A tiling with no two adjacent free blocks whose blocks are all free is the single free block `[1, memory_size + 1)`. |
| MemoryManager.AllocateUsesCells | algorithms/memory_manager/main.cpp:220-230 | A successful allocation removes exactly `size` cells from the free ones. |
| MemoryManager.FreeReturnsCells | algorithms/memory_manager/main.cpp:233-241 | Freeing an allocated block adds exactly its size to the free cells. |
| MemoryManager.AbsorbKeepsLayout | algorithms/memory_manager/main.cpp:251-257 | `AppendIfFree` on blocks keeps the layout; when the neighbour is free, the two become one allocated block from the smaller left to the larger right. |
| MemoryManager.FreeByAbsorbing | algorithms/memory_manager/main.cpp:233-241 | Absorbing the right neighbour, then the left one, then marking the result free gives exactly the merged blocks that `FreeSpec` describes. |
| MemoryManager.ViewInsert | algorithms/memory_manager/main.cpp:222 | Inserting a handle before a list position inserts its block at that place in the view. |
| MemoryManager.ViewRemove | algorithms/memory_manager/main.cpp:255 | Erasing a handle from the list removes its block from the view. |
| MemoryManager.TokensRemoveSlot | algorithms/memory_manager/main.cpp:38-47 | When the slot erased is not the last, the erased segment has `kNullIndex`, the moved segment has its new slot, and every other token is right. |
| MemoryManager.TokensEmpty | algorithms/memory_manager/main.cpp:173-183 | With an empty heap every segment carries `kNullIndex`. |
| MemoryManager.MemoryManager.constructor | algorithms/memory_manager/main.cpp:205-210 | The manager starts with one free segment `[1, memory_size + 1)`. |
| MemoryManager.MemoryManager.NotifyIndexChange | algorithms/memory_manager/main.cpp:95-100 | The observer records the new slot of exactly that segment and changes no other token. |
| MemoryManager.MemoryManager.SwapElements | algorithms/memory_manager/main.cpp:102-106 | Swaps two heap slots and tells both segments their new slots. |
| MemoryManager.MemoryManager.CompareElements | algorithms/memory_manager/main.cpp:91-93 | True exactly when the second slot's segment beats the first under the size comparator. |
| MemoryManager.MemoryManager.ParentIndex | algorithms/memory_manager/main.cpp:70-75 | The root has `kNullIndex` as parent; any other slot has a smaller parent of which it is one of the two sons. |
| MemoryManager.MemoryManager.LeftSon | algorithms/memory_manager/main.cpp:77-82 | Slot `2 * index + 1`, whose parent is `index`, when it is in the heap, and `kNullIndex` otherwise. |
| MemoryManager.MemoryManager.RightSon | algorithms/memory_manager/main.cpp:84-89 | Slot `2 * index + 2`, whose parent is `index`, when it is in the heap, and `kNullIndex` otherwise. |
| MemoryManager.MemoryManager.SiftUp | algorithms/memory_manager/main.cpp:108-118 | From a slot where only the edge to the parent may be broken, restores heap order and keeps every token right. |
| MemoryManager.MemoryManager.SiftDown | algorithms/memory_manager/main.cpp:120-138 | Repairs order below the slot, touches only its subtree and keeps the tokens right. |
| MemoryManager.MemoryManager.Push | algorithms/memory_manager/main.cpp:32-36 | Adds the segment to the free ones, keeps heap order, and has the segment's token name its slot. |
| MemoryManager.MemoryManager.Erase | algorithms/memory_manager/main.cpp:38-47 | Removes exactly the segment at `index` from the free ones, gives it `kNullIndex`, and keeps heap order. |
| MemoryManager.MemoryManager.Pop | algorithms/memory_manager/main.cpp:53-55 | Removes exactly the top segment and keeps heap order. |
| MemoryManager.MemoryManager.TopIsBestFree | algorithms/memory_manager/main.cpp:49-51 | The heap is empty exactly when no block is free. Otherwise the top is the best free block of the list. |
| MemoryManager.MemoryManager.Insert | algorithms/memory_manager/main.cpp:222 | `memory_segments_.insert`: a fresh handle before the given one, with token `kNullIndex`, so the block view gains an allocated block there. |
| MemoryManager.MemoryManager.EraseNode | algorithms/memory_manager/main.cpp:255 | `memory_segments_.erase` removes the handle and its block and leaves the heap alone. |
| MemoryManager.MemoryManager.CarveFront | algorithms/memory_manager/main.cpp:220-227 | A longer top segment loses its front `size` cells to a new allocated segment and is pushed back. |
| MemoryManager.MemoryManager.TakeWhole | algorithms/memory_manager/main.cpp:220-230 | A top of exactly `size` cells is replaced by the new allocated segment. |
| MemoryManager.MemoryManager.Allocate | algorithms/memory_manager/main.cpp:212-231 | The new blocks are `AllocateSpec` of the old ones. The handle is defined exactly when that allocation succeeds, and then it is a new allocated segment `[position, position + size)`. Every segment allocated before keeps its bounds and stays allocated. |
| MemoryManager.MemoryManager.AppendIfFree | algorithms/memory_manager/main.cpp:251-257 | The blocks become `Absorb` of the old ones: a free neighbour is erased from the heap and the list and united into `remaining`. An allocated neighbour changes nothing. |
| MemoryManager.MemoryManager.MergeRight | algorithms/memory_manager/main.cpp:234-236 | The right neighbour, when there is one, is absorbed. |
| MemoryManager.MemoryManager.MergeLeft | algorithms/memory_manager/main.cpp:237-239 | The left neighbour, when there is one, is absorbed. |
| MemoryManager.MemoryManager.Release | algorithms/memory_manager/main.cpp:240 | The merged segment is pushed into the heap, so it becomes free. |
| MemoryManager.MemoryManager.Free | algorithms/memory_manager/main.cpp:233-241 | The new blocks are `FreeSpec` of the old ones: the freed block merged with its free neighbours. Every other allocated segment keeps its bounds and stays allocated. |
| MemoryManager.DecodeQuery | algorithms/memory_manager/main.cpp:332-338 | A positive number is an allocation of that size. Any other number `-i - 1` frees query `i`, as `size_t`. |
| MemoryManager.DecodeEncode | algorithms/memory_manager/main.cpp:332-338 | Decoding the number of a representable query gives that query back. |
| MemoryManager.EncodeDecode | algorithms/memory_manager/main.cpp:332-338 | Every nonzero number is the encoding of what it decodes to. |
| MemoryManager.DecodeZero | algorithms/memory_manager/main.cpp:336-337 | The number 0 decodes to a free of index `2^64 - 1`. |
| MemoryManager.ReplayStep | algorithms/memory_manager/main.cpp:361-376 | One query on blocks keeps the layout and records one handle slot. |
| MemoryManager.ReplayLog | algorithms/memory_manager/main.cpp:356-381 | The replay keeps the layout and records one handle slot per query. |
| MemoryManager.AllocatePosition | algorithms/memory_manager/main.cpp:220-230 | A successful allocation lies inside `[1, memory_size + 1)`. |
| MemoryManager.ReplayResponses | algorithms/memory_manager/main.cpp:362-369 | There is one response per allocation query. A success lies in `1..memory_size`; a failure has position 0. |
| MemoryManager.TrackedAllocate | algorithms/memory_manager/main.cpp:362-369 | After an allocation query, the recorded handle is the new segment, or undefined when the allocation failed. |
| MemoryManager.TrackedFree | algorithms/memory_manager/main.cpp:370-375 | A free of a failed allocation, or of another free query's slot, changes nothing. Otherwise it releases that live allocation. |
| MemoryManager.FreeTargetLive | algorithms/memory_manager/main.cpp:370-375 | In a well-formed log a free names an earlier query that no earlier free has freed. |
| MemoryManager.ReplayFreeStep | algorithms/memory_manager/main.cpp:370-375 | A free query whose allocation starts an allocated block frees exactly that block. |
| MemoryManager.ReleaseLive | algorithms/memory_manager/main.cpp:372-374 | Freeing a live handle gives the replay's blocks after that free query. Every other allocated segment keeps its bounds and stays allocated. |
| MemoryManager.AliveCarve | algorithms/memory_manager/main.cpp:220-230 | After a successful allocation, the new allocated block starts at the allocating query's recorded left, and every other allocated block keeps the query that covered it. |
| MemoryManager.AliveFree | algorithms/memory_manager/main.cpp:233-241 | Freeing query `t`'s block leaves every other allocated block covered by a query other than `t`. |
| MemoryManager.AliveDrop | algorithms/memory_manager/main.cpp:370-375 | A free whose query starts no allocated block leaves every allocated block covered by another query. |
| MemoryManager.AliveGrow | algorithms/memory_manager/main.cpp:361-376 | Recording more queries, and keeping more of them unfreed, keeps every allocated block covered. |
| MemoryManager.AliveNext | algorithms/memory_manager/main.cpp:356-381 | An allocation query adds itself to the unfreed queries. A free query removes at most the query it names. |
| MemoryManager.StepAlive | algorithms/memory_manager/main.cpp:361-376 | One query keeps every allocated block starting where an allocation that no free has named started. |
| MemoryManager.ReplayAlive | algorithms/memory_manager/main.cpp:356-381 | After any well-formed log, every allocated block starts where an allocation that no free query has named started. |
| MemoryManager.ReplayFreesAll | algorithms/memory_manager/main.cpp:356-381 | When the log frees every allocation that succeeded, in any order, memory ends as the single free block `[1, memory_size + 1)`. |
| MemoryManager.RunMemoryManager | algorithms/memory_manager/main.cpp:356-381 | The responses are those of replaying the log on blocks. |
| KStatistics.CompareIsTotalOrder | algorithms/K_statistics/main.cpp:173-188 | Both comparators are total orders on positions: reflexive, antisymmetric, transitive and total. |
| KStatistics.MinHeapCompare | algorithms/K_statistics/main.cpp:173-180 | A position goes above itself; a smaller value goes above a larger one, and only a value at most as large goes above. |
| KStatistics.MaxHeapCompare | algorithms/K_statistics/main.cpp:182-188 | A position goes above itself; a larger value goes above a smaller one, and only a value at least as large goes above. |
| KStatistics.Compare | algorithms/K_statistics/main.cpp:105-107 | The comparator a heap's `CompareElements` applies: a position goes above itself, and only a value at least as large (max-heap) or at most as large (min-heap) goes above. |
| KStatistics.CompareValues | algorithms/K_statistics/main.cpp:173-188 | The max-heap comparator puts larger values first and the min-heap one smaller values, with ties broken by position. |
| KStatistics.Parent | algorithms/K_statistics/main.cpp:84-89 | The root has `invalid_index` as parent; any other slot has a smaller parent of which it is one of the two sons. |
| KStatistics.SiftUpStep | algorithms/K_statistics/main.cpp:119-132 | One swap with the parent moves the single possible violation up. |
| KStatistics.SiftDownStep | algorithms/K_statistics/main.cpp:134-161 | One swap with the son that goes first moves the violation down. |
| KStatistics.RootFirst | algorithms/K_statistics/main.cpp:65-67 | In an ordered heap the root goes above every slot. |
| KStatistics.TopValue | algorithms/K_statistics/main.cpp:65-67 | The top of the max-heap holds its largest value; the top of the min-heap holds its smallest. |
| KStatistics.SwapTokens | algorithms/K_statistics/main.cpp:109-117 | `SwapElements` keeps each token equal to its element's slot. |
| KStatistics.PopFront | algorithms/K_statistics/main.cpp:69-77 | `pop`'s move of the last slot into the root removes exactly the top. |
| KStatistics.PopDone | algorithms/K_statistics/main.cpp:69-77 | After `pop` the heap is ordered, the top is gone and carries `invalid_index`, and no other position's token changed. |
| KStatistics.EraseOrder | algorithms/K_statistics/main.cpp:58-63 | Copying the top into slot `index` breaks only the edge above it, and the copy goes above every slot. |
| KStatistics.EraseReady | algorithms/K_statistics/main.cpp:58-63 | After the copy, `SiftUp` can pull the copy to the root. |
| KStatistics.PushReady | algorithms/K_statistics/main.cpp:52-56 | The append and notification of `push` leave `SiftUp` ready at the new last slot. |
| KStatistics.Heap.TopFirst | algorithms/K_statistics/main.cpp:65-67 | The top of a valid heap goes above every position in it. |
| KStatistics.Heap.LeftSon | algorithms/K_statistics/main.cpp:91-96 | Slot `2 * index + 1` when it is in the heap, `invalid_index` otherwise. |
| KStatistics.Heap.RightSon | algorithms/K_statistics/main.cpp:98-103 | Slot `2 * index + 2` when it is in the heap, `invalid_index` otherwise. |
| KStatistics.Heap.NotifyIndexChange | algorithms/K_statistics/main.cpp:109-111 | The observer records the new slot of exactly that element and changes no other token. |
| KStatistics.Heap.SwapElements | algorithms/K_statistics/main.cpp:113-117 | Exchanges two slots and tells both positions their new slots. |
| KStatistics.Heap.Push | algorithms/K_statistics/main.cpp:52-56 | Adds exactly the new position. The heap stays ordered with right tokens. No other position's token changes. |
| KStatistics.Heap.Pop | algorithms/K_statistics/main.cpp:69-77 | Removes exactly the top, which gets `invalid_index`, and keeps the heap valid. |
| KStatistics.Heap.Erase | algorithms/K_statistics/main.cpp:58-63 | Removes exactly the position at `index` and keeps the heap valid. |
| KStatistics.Heap.SiftUp | algorithms/K_statistics/main.cpp:119-132 | Ends at the root with the heap ordered, and changes only tokens of positions in the heap. |
| KStatistics.Heap.SiftDown | algorithms/K_statistics/main.cpp:134-161 | Ends with the heap ordered and the tokens right, including the pending token that `erase` left. |
| KStatistics.IsKthUnique | algorithms/K_statistics/main.cpp:245-249 | The k-th smallest value of a window is unique. |
| KStatistics.SplitStart | algorithms/K_statistics/main.cpp:199-209 | Position 0 alone in the max-heap splits the window `[0, 0]`. |
| KStatistics.SplitRightToMax | algorithms/K_statistics/main.cpp:213-215 | While the max-heap holds fewer than k positions, pushing the new right position keeps the split. |
| KStatistics.SplitRightSwap | algorithms/K_statistics/main.cpp:216-223 | A new value below the max-heap's top: the top moves to the min-heap and the new position goes into the max-heap, keeping the split. |
| KStatistics.SplitRightToMin | algorithms/K_statistics/main.cpp:224-227 | Otherwise the new position goes into the min-heap, keeping the split. |
| KStatistics.SplitLeftFromMin | algorithms/K_statistics/main.cpp:230-231 | A left position in the min-heap leaves it, and the split holds for the shorter window. |
| KStatistics.SplitLeftFromMax | algorithms/K_statistics/main.cpp:232-234 | A left position in the max-heap, with the min-heap empty, leaves it, and the split holds. |
| KStatistics.SplitLeftRefill | algorithms/K_statistics/main.cpp:232-240 | A left position in the max-heap leaves it and the min-heap's top moves over, and the split holds. |
| KStatistics.SplitApart | algorithms/K_statistics/main.cpp:208-243 | No position is in both heaps, and none past `right` is in either. |
| KStatistics.KthOfSplit | algorithms/K_statistics/main.cpp:245-249 | Under the split, the max-heap's top is the k-th smallest value of the window once the heap holds k positions, and -1 is the answer before. |
| KStatistics.PrefixCounts | algorithms/K_statistics/main.cpp:211-242 | An `R` command moves `right` by one; any other command moves `left` by one. |
| KStatistics.RightToMax | algorithms/K_statistics/main.cpp:213-215 | The `R` branch for a short max-heap keeps the window invariant for the window grown to the right. |
| KStatistics.RightSwap | algorithms/K_statistics/main.cpp:216-223 | The `R` branch for a new value below the max-heap's top keeps the window invariant. |
| KStatistics.RightToMin | algorithms/K_statistics/main.cpp:224-227 | The remaining `R` branch keeps the window invariant. |
| KStatistics.LeftCommand | algorithms/K_statistics/main.cpp:229-243 | `L` keeps the window invariant for the window shrunk from the left. |
| KStatistics.PushToMax | algorithms/K_statistics/main.cpp:213-215 | The new right position is flagged as in the max-heap and pushed there; both heaps stay valid and the max-heap gains exactly that position. |
| KStatistics.MoveTop | algorithms/K_statistics/main.cpp:217-221 | Moves the top of one heap into the other and flips its two flags. |
| KStatistics.LeftFromMin | algorithms/K_statistics/main.cpp:229-231 | Erasing a left position held by the min-heap keeps the window invariant for the window shrunk from the left. |
| KStatistics.LeftFromMax | algorithms/K_statistics/main.cpp:232-240 | Erasing a left position held by the max-heap, and moving the min-heap's top over when there is one, keeps the window invariant. |
| KStatistics.Step | algorithms/K_statistics/main.cpp:210-243 | One command keeps the window invariant and moves `right` on `R` and `left` otherwise. |
| KStatistics.Answer | algorithms/K_statistics/main.cpp:245-249 | The answer is the k-th smallest value of the window, or -1 while the window holds fewer than k positions. |
| KStatistics.AnsweredNext | algorithms/K_statistics/main.cpp:210-250 | A correct answer to the next command extends the correct answers so far. |
| KStatistics.Start | algorithms/K_statistics/main.cpp:197-209 | Before the first command, position 0 alone is in the max-heap and the window invariant holds for `[0, 0]`. |
| KStatistics.Advance | algorithms/K_statistics/main.cpp:210-250 | One turn of the command loop keeps the window invariant, moves the window by the command, and appends the k-th statistic of the new window. |
| KStatistics.GetKthStatistics | algorithms/K_statistics/main.cpp:196-252 | One answer per command. Each answer is the k-th smallest value of the window after that command, or -1 when the window holds fewer than k values. |
| CyclicParking.RangeMinIsMinimum | algorithms/cyclic_parking/main.cpp:40-53 | The range minimum is at most every value of the range and, for a non-empty range, is one of them. |
| CyclicParking.RangeMinSplit | algorithms/cyclic_parking/main.cpp:32-36 | The minimum of a range is the smaller of its two halves' minima. |
| CyclicParking.ChildrenDisjoint | algorithms/cyclic_parking/main.cpp:33-34 | The subtrees of the two sons of a node share no node. |
| CyclicParking.RepresentsFrame | algorithms/cyclic_parking/main.cpp:27-38 | Whether a node holds the minima of its range depends only on its own subtree. |
| CyclicParking.Combine | algorithms/cyclic_parking/main.cpp:35-36 | A node holding the smaller of its sons' minima holds the minimum of its whole range. |
| CyclicParking.BuildSegmentTree | algorithms/cyclic_parking/main.cpp:27-38 | Afterwards every node of the subtree holds the minimum of `massive` over its range. No node outside the subtree changes. |
| CyclicParking.BuildStep | algorithms/cyclic_parking/main.cpp:32-36 | After both sons are built, neither build disturbed the other, so the node is right. |
| CyclicParking.GetMin | algorithms/cyclic_parking/main.cpp:40-53 | The minimum over the leaves `left..right`, or `MAX_VALUE` when `left > right`. |
| CyclicParking.Update | algorithms/cyclic_parking/main.cpp:55-69 | Afterwards the tree describes the leaves with exactly that one leaf changed. No node outside the subtree changes. |
| CyclicParking.UpdateStep | algorithms/cyclic_parking/main.cpp:60-67 | The untouched son still describes its unchanged leaves, so the recomputed node is right. |
| CyclicParking.Encode | algorithms/cyclic_parking/main.cpp:75-77 | A free slot i holds i + 1 and an occupied one holds `MAX_VALUE`. |
| CyclicParking.FirstFree | algorithms/cyclic_parking/main.cpp:83-90 | The first free slot of a range, or -1 when all slots of the range are taken. |
| CyclicParking.EncodedMin | algorithms/cyclic_parking/main.cpp:83-86 | On encoded slots, the range minimum is one more than the first free slot of the range, or `MAX_VALUE`. |
| CyclicParking.ArriveSpec | algorithms/cyclic_parking/main.cpp:82-96 | An arrival at e answers -1 and changes nothing exactly when every slot is taken. Otherwise it takes the first free slot from e on, or else the first free slot before e, and occupies only that slot. |
| CyclicParking.DepartSpec | algorithms/cyclic_parking/main.cpp:97-105 | A departure from e answers 0 when slot e was taken and -2 when it was free. Either way slot e is free afterwards, and no other slot changes. |
| CyclicParking.Run | algorithms/cyclic_parking/main.cpp:71-108 | One answer per event, with the state starting all free. |
| CyclicParking.EncodeUpdate | algorithms/cyclic_parking/main.cpp:91-101 | Occupying or freeing one slot changes exactly one leaf of the encoding. |
| CyclicParking.FindFree | algorithms/cyclic_parking/main.cpp:83-86 | A query of the tree gives one more than the first free slot in the range, or `MAX_VALUE`. |
| CyclicParking.SetSlot | algorithms/cyclic_parking/main.cpp:91-101 | An update of the tree keeps it in step with the new parking state. |
| CyclicParking.ServeArrival | algorithms/cyclic_parking/main.cpp:82-96 | Answers and changes state exactly as `ArriveSpec` describes, and keeps the tree in step. |
| CyclicParking.ServeDeparture | algorithms/cyclic_parking/main.cpp:97-105 | Answers and changes state exactly as `DepartSpec` describes, and keeps the tree in step. |
| CyclicParking.ServeEvent | algorithms/cyclic_parking/main.cpp:81-106 | One event, answered as the abstract step answers it. |
| CyclicParking.GetAnswers | algorithms/cyclic_parking/main.cpp:71-108 | The answers are those of `Run` on the events, starting with n free slots. |
| FixedSet.CRem | algorithms/fixed_set/main.cpp:54-55 | C++ `%`: the result has the sign of the dividend and differs from the Euclidean remainder by the divisor when negative. |
| FixedSet.Hash | algorithms/fixed_set/main.cpp:52-63 | The hash lies in `[0, number_of_buckets)`. |
| FixedSet.HashIsResidue | algorithms/fixed_set/main.cpp:52-63 | Correcting a negative remainder gives the Euclidean residue. |
| FixedSet.HashOfNonNegative | algorithms/fixed_set/main.cpp:52-63 | For non-negative inputs the hash is `((a * x + b) mod p) mod m`. |
| FixedSet.HashNoOverflow | algorithms/fixed_set/main.cpp:52-69 | For an `int` number and parameters below `PRIME_NUMBER`, the `int64_t` product and sum stay in range. |
| FixedSet.DistributionMembers | algorithms/fixed_set/main.cpp:78-81 | A number lies in bucket i exactly when it is one of the numbers and hashes to i. |
| FixedSet.DistributeNumbers | algorithms/fixed_set/main.cpp:78-81 | The buckets the loop fills are the first-level distribution. |
| FixedSet.SumOfSquares | algorithms/fixed_set/main.cpp:82-85 | The loop computes the sum of the squared bucket sizes. |
| FixedSet.ChooseFrontParameters | algorithms/fixed_set/main.cpp:75-93 | The accepted parameters are the first draw whose distribution has squared bucket sizes summing to at most 4n, and they come with that distribution. The loop fails only after every draw failed the test. |
| FixedSet.FlagNonEmpty | algorithms/fixed_set/main.cpp:96-103 | `front_buckets[i]` is true exactly when bucket i is non-empty. |
| FixedSet.PlaceKeys | algorithms/fixed_set/main.cpp:112-123 | Placement succeeds exactly when the keys do not collide in `s²` slots, and then every key sits at its hash slot. |
| FixedSet.PlaceStep | algorithms/fixed_set/main.cpp:116-121 | A key placed into a free slot extends the partial placement. |
| FixedSet.Collision | algorithms/fixed_set/main.cpp:116-118 | A taken slot means an earlier key hashes to the same slot. |
| FixedSet.PlaceBucket | algorithms/fixed_set/main.cpp:109-129 | The parameters used are the first remaining draw that places the bucket's keys without collision, and the keys sit at their slots. It fails only after every remaining draw collided. |
| FixedSet.BuildSecondLevel | algorithms/fixed_set/main.cpp:105-131 | Every non-empty bucket gets a collision-free second-level table and every empty one the default `Bucket()`. It fails only when the draws run out. |
| FixedSet.SlotsAreSquares | algorithms/fixed_set/main.cpp:105-131 | Each second-level table has the squared size of its bucket. |
| FixedSet.FixedSet.constructor | algorithms/fixed_set/main.cpp:46 | The empty set. |
| FixedSet.FixedSet.Initialize | algorithms/fixed_set/main.cpp:65-132 | On success the set is valid and holds exactly the given numbers. It fails only when every draw was used. |
| FixedSet.FixedSet.SpaceBound | algorithms/fixed_set/main.cpp:82-92 | The second-level tables take at most 4n slots in all. |
| FixedSet.FixedSet.Contains | algorithms/fixed_set/main.cpp:134-150 | For every number other than `NAN_VALUE`, the answer is true exactly when the number is one of the keys. |
| FixedSet.GetQueriesAnswers | algorithms/fixed_set/main.cpp:171-178 | One membership answer per query, in order. |
| FootballTeam.ComparePlayersEfficiency | algorithms/football_team/main.cpp:21-25 | A player never goes before itself, nor before a player of equal efficiency. |
| FootballTeam.ComparePlayersNumber | algorithms/football_team/main.cpp:27-31 | A player never goes before itself, nor before a player with the same number. |
| FootballTeam.LessIsComparator | algorithms/football_team/main.cpp:21-31 | The model's order is `ComparePlayersEfficiency` or `ComparePlayersNumber`, as the key selects. |
| FootballTeam.Swap | algorithms/football_team/main.cpp:84 | `std::iter_swap` exchanges the two slots and leaves every other slot as it was. |
| FootballTeam.SwapPermutes | algorithms/football_team/main.cpp:84 | A swap inside the range permutes the range. |
| FootballTeam.Partition | algorithms/football_team/main.cpp:66-87 | Permutes `[begin, end)`, touches nothing outside it, and returns p. Keys before p are at most the pivot's; keys from p on are at least the pivot's. |
| FootballTeam.PartedDone | algorithms/football_team/main.cpp:81-83 | When the scans meet, `left` splits the range. |
| FootballTeam.PartedSwap | algorithms/football_team/main.cpp:84-85 | Otherwise the swap extends both sorted sides, and the distance between the scans shrinks. |
| FootballTeam.SkipGreater | algorithms/football_team/main.cpp:74-77 | The right scan stops at the first key from the right that is not greater than the pivot's. |
| FootballTeam.SkipLess | algorithms/football_team/main.cpp:78-80 | The left scan stops at the first key that is not less than the pivot's. |
| FootballTeam.QuickSort | algorithms/football_team/main.cpp:54-64 | Permutes `[begin, end)`, touches nothing outside it, and leaves the range sorted by the comparator unless the draws ran out, which is the only way it stops early. |
| FootballTeam.SortedHalves | algorithms/football_team/main.cpp:61-63 | Two sorted halves around the partition point make a sorted permutation of the range. |
| FootballTeam.SumMonotone | algorithms/football_team/main.cpp:93-109 | With non-negative efficiencies a sub-window sums to no more than its window. |
| FootballTeam.SolidaryMeaning | algorithms/football_team/main.cpp:94-99 | On sorted players, the two weakest outweighing the strongest is exactly the condition that every player is at most any two others together. |
| FootballTeam.SolidaryDropFirst | algorithms/football_team/main.cpp:105-107 | Dropping the weakest player keeps a sorted window solidary. |
| FootballTeam.NotSolidaryExtend | algorithms/football_team/main.cpp:94-107 | Once a sorted window is not solidary, no longer window from the same start is. |
| FootballTeam.BestSolidaryWindow | algorithms/football_team/main.cpp:91-110 | The best window is non-empty, its efficiency is its sum, and on sorted players it is solidary. With non-negative efficiencies no solidary window sums to more. |
| FootballTeam.ShrinkKeepsBest | algorithms/football_team/main.cpp:105-107 | Dropping the weakest player loses no better solidary window. |
| FootballTeam.BuildMostEffectiveSolidaryTeam | algorithms/football_team/main.cpp:89-111 | The team is a run of consecutive players of a permutation of the input. Unless the sort ran out of draws, the permutation is sorted and the run is solidary and, for non-negative efficiencies, of maximum sum. |
| FootballTeam.CountSummaryEfficiency | algorithms/football_team/main.cpp:113-119 | The sum of the team's efficiencies. |
| Triangles.Equal | algorithms/triangles/main.cpp:16-19 | `operator==` holds exactly when the two triangles are the same. |
| Triangles.GcdLoop | algorithms/triangles/main.cpp:22-28 | The loop computes Euclid's gcd, and `gcd(a, 0) == a`. |
| Triangles.GcdDivides | algorithms/triangles/main.cpp:22-28 | The gcd is positive and divides both arguments when they are not both zero. |
| Triangles.GcdGreatest | algorithms/triangles/main.cpp:22-28 | Every common divisor divides the gcd. |
| Triangles.GcdScale | algorithms/triangles/main.cpp:22-28 | `gcd(k * a, k * b) == k * gcd(a, b)`. |
| Triangles.Gcd3Characterization | algorithms/triangles/main.cpp:43 | The gcd of the three sides is a common divisor that every common divisor divides. |
| Triangles.Sort3Spec | algorithms/triangles/main.cpp:41-42 | The sorted sides are ascending and are the same multiset. |
| Triangles.Normalize | algorithms/triangles/main.cpp:40-46 | `NormalizeTriangle` gives positive sides in ascending order. |
| Triangles.NormalizeSpec | algorithms/triangles/main.cpp:40-46 | The normal form is positive and ascending, and times the gcd it gives back the original sides. |
| Triangles.NormalizeSwapFirst | algorithms/triangles/main.cpp:40-46 | Swapping the first two sides does not change the normal form. |
| Triangles.NormalizeSwapLast | algorithms/triangles/main.cpp:40-46 | Swapping the last two sides does not change the normal form. |
| Triangles.NormalizeScale | algorithms/triangles/main.cpp:40-46 | Scaling all sides by a positive factor does not change the normal form. |
| Triangles.NormalizeIdempotent | algorithms/triangles/main.cpp:40-46 | Normalising twice gives the same as normalising once. |
| Triangles.Hash | algorithms/triangles/main.cpp:30-38 | The hash of non-negative sides lies in `[0, TABLESIZE)`. |
| Triangles.HashNoOverflow | algorithms/triangles/main.cpp:30-38 | For sides that fit an `int`, no intermediate value overflows `long long`. |
| Triangles.ClassesMembers | algorithms/triangles/main.cpp:58-84 | A class is exactly the normal form of some input triangle. |
| Triangles.InsertKeepsTable | algorithms/triangles/main.cpp:64-76 | Appending a new normal form to its bucket keeps every bucket free of duplicates and the table equal to the classes seen. |
| Triangles.FoundKeepsTable | algorithms/triangles/main.cpp:67-73 | A normal form found in its bucket is a class already seen. |
| Triangles.FindInBucket | algorithms/triangles/main.cpp:67-73 | True exactly when the triangle is in the bucket. |
| Triangles.CountStored | algorithms/triangles/main.cpp:79-83 | The sum of all bucket sizes. |
| Triangles.GetSimilarityClasses | algorithms/triangles/main.cpp:58-84 | The number of distinct normal forms, that is, of similarity classes. |
| Triangles.ReservedTableIndexOutOfRange | algorithms/triangles/main.cpp:59-64 | With the table the source reserves, the first `table[hash_value]` indexes past the end. |
| Triangles.Reserve | algorithms/triangles/main.cpp:60 | `reserve` raises the capacity to at least the request and leaves the elements, and so the indexable size, unchanged. |
| Triangles.ReservedTable | algorithms/triangles/main.cpp:59-60 | The table the source sets up has capacity for `TABLESIZE` buckets but holds none. |
| DominatingChain.CompareTriples | algorithms/hw1/main.cpp:27-33 | True exactly when every component of the first triple is strictly less than the matching component of the second. |
| DominatingChain.LessIrreflexive | algorithms/hw1/main.cpp:27-33 | No triple dominates itself. |
| DominatingChain.LessTransitive | algorithms/hw1/main.cpp:27-33 | Domination is transitive. |
| DominatingChain.ChainBounds | algorithms/hw1/main.cpp:38-45 | `1 <= dynamics[i] <= size - i`. |
| DominatingChain.BestChainIsChain | algorithms/hw1/main.cpp:38-45 | Some chain starting at i has exactly `dynamics[i]` triples. |
| DominatingChain.ChainIsUpperBound | algorithms/hw1/main.cpp:38-45 | No chain starting at i is longer than `dynamics[i]`. |
| DominatingChain.GetMaxChain | algorithms/hw1/main.cpp:35-47 | The result is in `[1, size]`, is one of the table's entries, and is at least all of them. |
| DominatingChain.LongestChainLength | algorithms/hw1/main.cpp:35-47 | The result is the length of a longest chain: one exists, and none is longer. |
| AliBaba.CoinLess | algorithms/ali-baba/main.cpp:13-20 | `CoinComparartor` never puts a coin before itself, and a coin at a smaller position always goes first. |
| AliBaba.CoinLessIsLexicographic | algorithms/ali-baba/main.cpp:13-20 | The comparator orders by position, then by time. |
| AliBaba.CoinLessStrictTotal | algorithms/ali-baba/main.cpp:13-20 | The comparator is a strict total order. |
| AliBaba.EraseDuplicates | algorithms/ali-baba/main.cpp:94-100 | The loop leaves exactly the coins whose position differs from their predecessor's. |
| AliBaba.DeduplicatedProperties | algorithms/ali-baba/main.cpp:94-105 | On sorted input, positions become strictly increasing, every kept coin is an input coin, and each position keeps its earliest coin. |
| AliBaba.FirstOfRunIsEarliest | algorithms/ali-baba/main.cpp:104-105 | On sorted input the first coin of an equal-position run has the smallest time. |
| AliBaba.Walk | algorithms/ali-baba/main.cpp:45-67 | The walk ends with 2, 0 or a negative number. Each reversal shrinks `abs(begin - end)`; each other step moves toward `begin`. |
| AliBaba.GetAnswerForTimeAndDirection | algorithms/ali-baba/main.cpp:34-68 | The loop returns the walk's answer, which is 2, 0 or negative. |
| AliBaba.GetBestTime | algorithms/ali-baba/main.cpp:70-92 | The result is -1, or a time in `[0, MAX_VALUE]` with answer 0 for direction -1 or +1. |

## Left out

- I/O: every `read_*`, `Read*`, `Write*`, `print_*` and `Output*` function and every `main` is not modelled. Their decoded inputs are parameters (sequences), and the decoding of one memory-manager query number is `DecodeQuery`.
- `steady_timer` in the k-statistics exercise is not modelled: it reads the clock.
- Randomness: the draws of `std::mt19937` in `FixedSet::Initialize` and in `QuickSort` are an input sequence. The model does not prove that the retry loops end, because they end only with probability one. It does not prove that `QuickSort` ends when `Partition` keeps returning `begin`, for the same reason. When the draws run out, the method reports that it stopped, and the contracts state that this is the only way each such method fails.
- The `std::function` observers of both heaps are not modelled as calls. Each notification is a direct update of the token map (`heapIndex`). The `dynamic_cast`-based query classes are the datatype `Query`.
- Fixed-width integers: `size_t`, `int` and `long long` arithmetic is modelled only where it matters. That is the `size_t` wrap of a free query's index (`DecodeQuery`) and the no-overflow lemmas of both hashes (`FixedSet.HashNoOverflow`, `Triangles.HashNoOverflow`).
- MemoryManager.MemoryManager.constructor: requires `memory_size >= 1`. With size 0 the source pushes an empty free segment, putting an empty segment in the list.
- MemoryManager.MemoryManager.Allocate: requires `size >= 1`. Its one caller passes only positive sizes, because a query number is an allocation only when it is positive. A zero size would create empty segments.
- MemoryManager.DecodeQuery: requires the number to be above `INT_MIN`, because negating `INT_MIN` overflows `int`.
- MemoryManager.RunMemoryManager: requires a well-formed log. A free must name an earlier query, and no two frees may name the same one. A free of a later query makes the source index past `segments_iterators`, and a second free of one successful allocation releases a segment twice; both are undefined. The log also excludes two cases the source handles as no-ops: two frees of the same free query, and two frees of an allocation that failed, whose slot holds `undefined_handle()`.
- MemoryManager.MemoryManager.Erase: models the evidently intended behaviour when `index` is the last slot, which is no move and no sift. The source's behaviour there is given by `EraseAsWritten` (see Findings).
- MemoryManager.MemoryManager.Free: its contract states the new blocks and that every other allocated segment keeps its bounds. It says nothing about the handles of the free segments that were merged away.
- KStatistics.GetKthStatistics: requires a non-empty input, `k >= 1`, and commands that never move `right` past the end or `left` past `right`. The input and command conditions exclude undefined behaviour in the source. `k >= 1` is the exercise's domain, since there is no 0-th statistic. With `k <= 0` the source still runs: it keeps one position in the max-heap and answers its top, until an `L` empties the window and `top()` then reads an empty heap. That behaviour is not modelled.
- KStatistics.GetKthStatistics: the positions of `left` and `right` after i commands are computed by the functions `Lefts` and `Rights`, which count the commands, rather than being read from the iterators.
- KStatistics.Heap.Pop: as called from `erase`, the top is also the copy at `index`, and its token is restored by `SiftDown`'s first swap. This is modelled, through the ghost "pending" state, only for that call.
- CyclicParking.GetAnswers: requires `1 <= n < MAX_VALUE` and events in `-n..n` other than 0. Other `n` make the slot encoding clash with `MAX_VALUE`. Event 0 and arrivals after `n + 1` make `get_min` recurse past the tree, which is undefined. The requires also excludes two events the source does define. An arrival at `n + 1` finds `MAX_VALUE` in the empty range from slot `n` on and then searches all slots, like an arrival at 1. A departure from `e > n` finds `MAX_VALUE`, answers 0 and writes `e` into the last leaf, so that leaf no longer follows the slot encoding. Neither is modelled.
- FixedSet.FixedSet.Contains: requires a non-empty set. For an empty set the source hashes into 0 buckets, which divides by zero.
- FixedSet.FixedSet.Contains: its answer for `NAN_VALUE` itself is not stated, because the empty slots hold that value. Duplicate keys are not excluded: the source then never finds a collision-free second level, and the model reports that the draws ran out.
- FootballTeam.BestSolidaryWindow: maximality is proved only for non-negative efficiencies, which the exercise's players have. The `int64_t` sums are modelled as unbounded integers.
- FootballTeam.BuildMostEffectiveSolidaryTeam: requires at least one player. The source reads `players[0]` unconditionally.
- Triangles.GetSimilarityClasses: requires positive sides, as the sides of a triangle are. With all three sides zero the gcd is 0 and the source divides by zero; negative sides give a negative hash and an index outside the table.
- DominatingChain.GetMaxChain: requires a non-empty input. For an empty one the source's `max_element` dereferences the end.
- AliBaba.GetAnswerForTimeAndDirection: requires a non-empty coin list, since for an empty one the walk starts at `coins.size() - 1`, so direction -1 reads `coins[-1]` and direction +1 reads `coins[0]`; both are undefined. Direction -1 or +1 is what its only caller passes.
- AliBaba.GetBestTime: requires a non-empty coin list. Nothing in the source checks it: an input of 0 coins reaches `get_best_time`, whose first call (direction -1) reads `coins[-1]`, which is undefined.
- AliBaba.GetAnswerForTimeAndDirection: `int` overflow of `cur_time` is not modelled; the times are unbounded integers.
- AliBaba.GetBestTime: a result of -1 does not claim that no time works. It means that the bounded search stopped at answer 2 or past `MAX_VALUE` in both directions.

## Findings

| source | as written | input that shows it | evidently intended | confidence | as-written member | corrected member |
|---|---|---|---|---|---|---|
| algorithms/triangles/main.cpp:59-65 | `table.reserve(TABLESIZE)` gives capacity but no buckets, and `table[hash_value]` then indexes an empty vector. | Any single positive triangle, e.g. (3, 4, 5): its hash is at least 0, the table's size. | A table of `TABLESIZE` empty buckets (`resize`). | not executed | Triangles.ReservedTableIndexOutOfRange | Triangles.GetSimilarityClasses |
| algorithms/memory_manager/main.cpp:38-47 | `Erase(index)` with `index == size() - 1` copies the last slot onto itself, so the erased segment's `heap_index` is set back to `index` instead of `kNullIndex`. After `pop_back` both sifts then start one past the end, and `SiftUp` compares `elements_[index]` with its parent. | A heap of two free segments, erasing slot 1. | Clear the token, drop the last slot, and sift only when a slot was moved into `index`. | not executed | MemoryManager.EraseLastSlotAsWritten | MemoryManager.MemoryManager.Erase |
