# Verified models of the study collection

This project models the hardest algorithms and stateful pieces of the GOOD-GOOD-STUDY collection in
Dafny and proves what each of them is for. Every piece has a declarative reference that does not
mention its code (paths to the border, equivalence closure, decision trees, edit scripts, index
sequences, multisets, lexicographic order, interleavings), and a theorem for all inputs, all runs or
all reachable states that connects the code to it.

`dafny verify dfyconfig.toml` checks everything.

| files | what they model |
|---|---|
| `Board`, `SurroundedDfs`, `SurroundedBfs`, `SurroundedUnionFind` | the three solvers for surrounded regions |
| `Graph`, `Forest`, `Components`, `DisjointSet` | union-find with path compression and the friend-circle counter |
| `CycleEntry` | cycle entry of a linked list: visited set and two pointers |
| `LruCache` | the LRU cache on a map and a doubly linked list |
| `Futures` | the asyncio-style Future |
| `Handshake` | the two-semaphore producer/consumer program |
| `EggDrop`, `LongestIncreasing`, `ReversePairs`, `EditDistance`, `MinWindow`, `Histogram`, `NextPermutation` | fast forms of simple specifications |
| `BstDelete` | deletion from a search tree |
| `Numerals`, `TreeCodec` | Python's `str` and `int`; tree serialization |
| `Agreement` | several solutions of one problem run on the same input |
| `Sequences`, `Prelude` | Python's `sorted` and permutations; options, results, min and max |

How the source's form is kept:

- Lists and boards that the source overwrites are arrays, objects are classes with the source's
  fields, loops are loops. Ghost fields and parameters (the list of nodes, the tree they spell, the set
  of marked cells, the shape of a forest) carry only what the proofs talk about.
- Exceptions are values. `Histogram.Bars.LargestRectangleArea`, `MinWindow.FindMinWindow` and
  `TreeCodec.DecodeOutcome` take every input and say exactly for which of them the source raises.
- `float('INF')`, `math.inf` and `None` are `None` of an option type. Python's negative index is
  written out in `Histogram.At` and in `NextPermutation.Next`.
- `hide` statements at the head of a body only keep definitions out of that one proof.

Preconditions are the source's own demands: a rectangular X/O board with a column if it has a row (the
search solvers index the first column of every row; the union-find solver needs no such thing), an
egg and a non-negative number of floors, a square matrix, a pointer array without cycles, and a linked
structure that is finite.

One promise fails in the code. `deleteNode` calls itself on the same root, and with equal keys in the
tree that need not end. `BstDelete.DuplicateKeyLoops` and `BstDelete.DuplicateSuccessorLoops` are two
such search trees; in the second the deleted key itself is unique. `BstDelete.ReturnsIffEnds` gives the
exact condition for every tree, ordered or not: along the search path and the chain of successors that
follows it, no copied successor key equals the key it replaces. That condition is what
`BstDelete.DeleteNode` requires; distinct keys imply it, and wherever it holds on a search tree, equal
keys included, exactly one occurrence of the key is removed.

Where code and comments differ, the code is modelled: `cancel(msg)` ignores its message, `put` with
capacity zero or below stores nothing, `set_exception(None)` finishes the future without an exception,
`deleteNode` copies the successor's key up or puts the right child in its parent's place (the comment
would hang the left subtree under the leftmost node of the right one), `minWindow` with an empty `t`
and a nonempty `s` runs off the end of `s`, and `largestRectangleArea` leaves its sentinel 0 in the
caller's list.

## Model

| member | source | states |
|---|---|---|
| `SurroundedDfs.Solve` | Foundation/LeetCode/字典树和并查集/130、被围绕的区域.py:7-38 | On every rectangular X/O board the recursive search leaves 'O' exactly on the cells that started 'O' and have an all-'O' path to the border, 'X' elsewhere; an empty board is left alone |
| `SurroundedDfs.Dfs` | Foundation/LeetCode/字典树和并查集/130、被围绕的区域.py:12-16 | Terminates on every board; marks only escaping 'O' cells, includes the start, and afterwards no newly marked cell has an unmarked 'O' neighbour, although the call may run in the middle of other searches |
| `SurroundedBfs.Solve` | Foundation/LeetCode/字典树和并查集/130、被围绕的区域.py:43-77 | The queue version leaves the same final board as stated for the recursive one |
| `SurroundedBfs.Bfs` | Foundation/LeetCode/字典树和并查集/130、被围绕的区域.py:48-57 | Terminates although a cell is marked on pop and may be queued many times; marks the start and only escaping cells, and afterwards no marked cell has an unmarked 'O' neighbour |
| `SurroundedBfs.PopLevels` | Foundation/LeetCode/字典树和并查集/130、被围绕的区域.py:52-54 | An entry's level stays at most the number of marked cells, and after its pop strictly below it |
| `SurroundedBfs.PopWeight` | Foundation/LeetCode/字典树和并查集/130、被围绕的区域.py:53-57 | Four entries of the next level weigh less than the popped entry under 5^(bound - level), so the loop's measure falls at every pop |
| `SurroundedUnionFind.Solve` | Foundation/LeetCode/字典树和并查集/130、被围绕的区域.py:82-116 | The union-find version leaves the same final board, including boards without rows or columns |
| `SurroundedUnionFind.Dictionary.Find` | Foundation/LeetCode/字典树和并查集/130、被围绕的区域.py:88-92 | Returns the root of an element, entering it if it is new; recursive path compression changes no element's root |
| `SurroundedUnionFind.Dictionary.Union` | Foundation/LeetCode/字典树和并查集/130、被围绕的区域.py:94-95 | The class of y takes the root of x and no other root changes |
| `SurroundedUnionFind.UniteCell` | Foundation/LeetCode/字典树和并查集/130、被围绕的区域.py:102-110 | After a cell's unions, equal roots are exactly connectivity in the graph of the cells handled so far |
| `SurroundedUnionFind.IdIsCell` | Foundation/LeetCode/字典树和并查集/130、被围绕的区域.py:101-113 | i*col+j numbers the cells one to one, below the dummy id row*col |
| `SurroundedUnionFind.ConnectedIffEscapes` | Foundation/LeetCode/字典树和并查集/130、被围绕的区域.py:102-114 | With all edges in place a cell is connected to the dummy if and only if it escapes |
| `Board.MarkedIffEscapes` | Foundation/LeetCode/字典树和并查集/130、被围绕的区域.py:21-38 | A marking that covers the border 'O' cells and is closed under 'O' neighbours is exactly the set of escaping cells |
| `Board.Finish` | Foundation/LeetCode/字典树和并查集/130、被围绕的区域.py:33-38 | The last pass turns such a marking into the solved board |
| `Board.NeighboursAreAdjacent` | Foundation/LeetCode/字典树和并查集/130、被围绕的区域.py:14 | The cells tried from a cell are exactly those at row distance plus column distance 1, which is how paths to the border are defined |
| `Agreement.SolveThreeWays` | Foundation/LeetCode/字典树和并查集/130、被围绕的区域.py:7-116 | Run on three copies of one board, the recursive search, the queue and the union-find leave the same board, cell by cell, and it is the board on which exactly the escaping cells are O |
| `DisjointSet.Parent` | Foundation/LeetCode/字典树和并查集/并查集实现.py:6-14 | Terminates on every acyclic pointer array and returns the root; both roots and ranks of the whole forest are unchanged by the compression loop |
| `DisjointSet.Union` | Foundation/LeetCode/字典树和并查集/并查集实现.py:16-19 | Merges exactly the classes of i and j under the root of j |
| `DisjointSet.Singletons` | Foundation/LeetCode/字典树和并查集/并查集实现.py:3-4 | Initially everyone is their own root |
| `DisjointSet.FindCircleNum` | Foundation/LeetCode/字典树和并查集/547、朋友圈.py:12-23 | Returns the number of classes of the equivalence closure of M, for every matrix, symmetric or not |
| `Forest.CompressKeepsShape` | Foundation/LeetCode/字典树和并查集/547、朋友圈.py:34-37 | Pointing an element at its root keeps the forest, every root and every rank |
| `Forest.UnionKeepsForest` | Foundation/LeetCode/字典树和并查集/547、朋友圈.py:25-28 | Pointing one root at another keeps the forest acyclic and moves exactly one class |
| `Forest.AcyclicIffWalksStop` | Foundation/LeetCode/字典树和并查集/547、朋友圈.py:30-33 | The forests for which this is proved are exactly the pointer structures in which every walk stops |
| `Forest.RootIsFixedPoint` | Foundation/LeetCode/字典树和并查集/547、朋友圈.py:31-33 | The root is the element at which following the pointers stands still |
| `Forest.SameRoots` | Foundation/LeetCode/字典树和并查集/547、朋友圈.py:30-33 | The roots depend on the pointers alone: any two witnesses for one pointer structure assign the same roots |
| `Components.MergedMatches` | Foundation/LeetCode/字典树和并查集/547、朋友圈.py:17-20 | One union adds exactly one edge to the connectivity that equal roots describe |
| `DisjointSet.RootsAreCircles` | Foundation/LeetCode/字典树和并查集/547、朋友圈.py:22-23 | There are as many distinct roots as distinct circles |
| `CycleEntry.DetectCycleSet` | Foundation/LeetCode/链表/142、环形链表II.py:17-29 | Returns None if the list ends, otherwise the first node from the head that lies on a cycle, on every finite structure |
| `CycleEntry.DetectCycleTwoPointers` | Foundation/LeetCode/链表/142、环形链表II.py:32-50 | Both loops terminate and the same specification is met by the two pointers |
| `CycleEntry.EntryIsUnique` | Foundation/LeetCode/链表/142、环形链表II.py:17-50 | The specification admits one answer only |
| `Agreement.BothEntries` | Foundation/LeetCode/链表/142、环形链表II.py:17-50 | Run on one list, the visited set and the two pointers return the same node |
| `CycleEntry.MeetingTime` | Foundation/LeetCode/链表/142、环形链表II.py:37-41 | The pointers meet after at most as many steps as there are nodes |
| `CycleEntry.SecondMeeting` | Foundation/LeetCode/链表/142、环形链表II.py:45-50 | Walking on in step from the head and from the meeting node, the pointers first meet again at the entry and nowhere before |
| `CycleEntry.RaceStep` | Foundation/LeetCode/链表/142、环形链表II.py:37-43 | The slow pointer never falls off, and a meeting happens only on a cyclic list |
| `LruCache.LRUCache.Get` | Foundation/LeetCode/布隆过滤器和LRU/146、LRU缓存机制.py:25-30 | Keeps links, map and list in agreement; the contents become the abstract recency list with the key moved to the front; the answer is its value, or -1 |
| `LruCache.LRUCache.Put` | Foundation/LeetCode/布隆过滤器和LRU/146、LRU缓存机制.py:32-48 | Keeps links, map and list in agreement and the size within the capacity; the contents become the abstract list with the new pair in front and, on overflow, without the last pair; holds for zero and negative capacities too |
| `LruCache.LRUCache.MoveToHead` | Foundation/LeetCode/布隆过滤器和LRU/146、LRU缓存机制.py:50-52 | Moves the node behind the head and leaves the list linked in both directions |
| `LruCache.LRUCache.AddNode` | Foundation/LeetCode/布隆过滤器和LRU/146、LRU缓存机制.py:54-58 | Links a new node behind the head |
| `LruCache.LRUCache.RemoveNode` | Foundation/LeetCode/布隆过滤器和LRU/146、LRU缓存机制.py:60-62 | Unlinks exactly that node |
| `LruCache.LRUCache.RemoveTail` | Foundation/LeetCode/布隆过滤器和LRU/146、LRU缓存机制.py:64-67 | Unlinks and returns the last node before the tail |
| `LruCache.LRUCache.constructor` | Foundation/LeetCode/布隆过滤器和LRU/146、LRU缓存机制.py:16-23 | A new cache is valid and empty |
| `LruCache.CacheIsRecentEnd` | Foundation/LeetCode/布隆过滤器和LRU/146、LRU缓存机制.py:25-48 | After any sequence of calls the cache is the first `capacity` entries of the unbounded list of all keys ever put, ordered by last use |
| `LruCache.LedgerIsTruthful` | Foundation/LeetCode/布隆过滤器和LRU/146、LRU缓存机制.py:25-48 | That list is strictly ordered by last use (puts and hitting gets), carries for each key the value of its last put, and misses no key that was put |
| `LruCache.CacheInvariant` | Foundation/LeetCode/布隆过滤器和LRU/146、LRU缓存机制.py:25-48 | Over every run: distinct keys, at most `capacity`, each with its latest value, most recently used first |
| `LruCache.GetReturnsLatest` | Foundation/LeetCode/布隆过滤器和LRU/146、LRU缓存机制.py:25-30 | get returns the latest value put for a key that has not been evicted, and -1 otherwise |
| `LruCache.MissingKeysAreOlder` | Foundation/LeetCode/布隆过滤器和LRU/146、LRU缓存机制.py:39-44 | A key that was put and is gone was last used before every key still cached, and the cache is full |
| `LruCache.EvictsLeastRecent` | Foundation/LeetCode/布隆过滤器和LRU/146、LRU缓存机制.py:32-44 | Putting a new key into a full cache removes exactly the least recently used key |
| `LruCache.HitIffRecent` | Foundation/LeetCode/布隆过滤器和LRU/146、LRU缓存机制.py:25-48 | After any run a key is in the cache if and only if it was put and fewer than `capacity` distinct keys have been used since its last use |
| `LruCache.Drive` | Foundation/LeetCode/布隆过滤器和LRU/146、LRU缓存机制.py:16-48 | Any sequence of gets and puts made on a new cache object leaves the contents of the abstract run, and every get answers as the abstract cache does at that point |
| `Futures.Future.Cancel` | Language/python/aio/future_source.py:112-123 | Refines the abstract call: succeeds only while pending, and clears the traceback flag in any case |
| `Futures.Future.SetResult` | Language/python/aio/future_source.py:224-235 | Refines the abstract call: InvalidStateError unless pending |
| `Futures.Future.SetException` | Language/python/aio/future_source.py:237-253 | Refines the abstract call: a class is instantiated, StopIteration is a TypeError that changes nothing, None is accepted |
| `Futures.Future.ScheduleCallbacks` | Language/python/aio/future_source.py:125-137 | Every pending callback is handed to the loop once, in order, and the list is emptied |
| `Futures.Future.Result` | Language/python/aio/future_source.py:150-171 | Refines the abstract call, including the stored exception being raised |
| `Futures.Future.GetStoredException` | Language/python/aio/future_source.py:173-191 | Refines the abstract call |
| `Futures.Future.AddDoneCallback` | Language/python/aio/future_source.py:193-205 | Refines the abstract call: queued while pending, scheduled at once when done |
| `Futures.EntryIsRequested` | Language/python/aio/future_source.py:201-205 | What is queued or scheduled is the given function with the given context; without a context, the caller's while pending and none when done |
| `Futures.Future.RemoveDoneCallback` | Language/python/aio/future_source.py:209-220 | Removes all pending occurrences of the function, keeps the others in order, returns how many were removed |
| `Futures.SettledAtMostOnce` | Language/python/aio/future_source.py:112-253 | Over any sequence of calls at most one cancel, set_result or set_exception succeeds; exactly one has if and only if the future is done |
| `Futures.OutcomeNeverChanges` | Language/python/aio/future_source.py:112-253 | Status, result and exception are those of the settling call in every later state |
| `Futures.RepliesAreThatOfTheSettlingCall` | Language/python/aio/future_source.py:150-191 | From then on, whatever is called in between: after set_result the value; after set_exception of an instance that instance, raised by result() and returned by exception(); after a class an instance of it without arguments; after None neither; after cancel CancelledError. Every further attempt to settle fails |
| `Futures.RepliesWhilePending` | Language/python/aio/future_source.py:150-191 | Until some call has settled the future, result() and exception() raise InvalidStateError and change nothing |
| `Futures.SettlesIff` | Language/python/aio/future_source.py:112-253 | A caller sees cancel, set_result or set_exception succeed exactly while the future is pending, except that the class StopIteration and its instances are refused |
| `Futures.RefusedIffStopIteration` | Language/python/aio/future_source.py:237-253 | A pending future answers set_exception with TypeError if and only if the argument is the class StopIteration or an instance of it; then nothing changes, and otherwise the call settles |
| `Futures.Drive` | Language/python/aio/future_source.py:112-253 | Any sequence of calls made on a new Future object leaves its fields in the state of the abstract run, and every reply is the abstract one |
| `Futures.EachSurvivorOnceInOrder` | Language/python/aio/future_source.py:125-220 | What has been scheduled followed by what is pending is exactly the sequence of callbacks added and not removed while pending, in order of addition, each with the function of its call and the context given there (or the caller's, if none is given while pending); once done nothing is pending |
| `Futures.CallbacksConserved` | Language/python/aio/future_source.py:193-220 | added = pending + scheduled + removed |
| `Futures.LogFlagMeansUnretrieved` | Language/python/aio/future_source.py:112-253 | The never-retrieved flag is up if and only if a set_exception has succeeded and neither result(), exception() nor cancel() has been called since; that includes set_exception(None), which stores nothing and still raises the flag |
| `Handshake.StepKeepsInv` | Improve/网络编程/socket/thread/thread3.c:31-52 | Every atomic step of either thread keeps the handshake invariant |
| `Handshake.RunIsSafe` | Improve/网络编程/socket/thread/thread3.c:18-52 | In every state of every interleaving, for any number of rounds, the semaphores and the threads inside a section total 1, the two threads are never both about to touch the shared variable, and the values added so far are a prefix of the inputs |
| `Handshake.NoDeadlock` | Improve/网络编程/socket/thread/thread3.c:31-52 | Every reachable unfinished state has a next step |
| `Handshake.RunLength` | Improve/网络编程/socket/thread/thread3.c:31-52 | Every schedule takes the same number of steps, 7 per round and one for the output |
| `Handshake.CompleteRunPrintsSum` | Improve/网络编程/socket/thread/thread3.c:18-52 | A run cannot be extended if and only if both threads have returned, and then the sum of all inputs has been printed |
| `EggDrop.SuperEggDrop` | Foundation/LeetCode/动态规划/887. 鸡蛋掉落.py:11-47 | For all k >= 1 and n >= 0 the result suffices for some decision tree on every threshold floor, and every decision tree needs that many drops on some threshold |
| `EggDrop.Solver.Dp` | Foundation/LeetCode/动态规划/887. 鸡蛋掉落.py:15-45 | The memoised binary search returns the linear minimax value, and every memo entry stays correct |
| `EggDrop.LowerBound` | Foundation/LeetCode/动态规划/887. 鸡蛋掉落.py:27-28 | No strategy that finds every threshold beats the minimax recurrence on its worst threshold |
| `EggDrop.UpperBound` | Foundation/LeetCode/动态规划/887. 鸡蛋掉落.py:27-28 | Some strategy attains it |
| `EggDrop.DropsMonotone` | Foundation/LeetCode/动态规划/887. 鸡蛋掉落.py:30-41 | The minimax value does not fall with more floors |
| `EggDrop.BrokenStep` | Foundation/LeetCode/动态规划/887. 鸡蛋掉落.py:36-38 | When breaking is worse at mid, discarding everything above mid loses no better first drop |
| `EggDrop.SurvivedStep` | Foundation/LeetCode/动态规划/887. 鸡蛋掉落.py:39-41 | When surviving is worse at mid, discarding everything below mid loses no better first drop |
| `LongestIncreasing.LengthOfLis` | Foundation/LeetCode/动态规划/300、最长上升子序列.py:14-22 | The quadratic table returns the greatest length of a strictly increasing subsequence |
| `LongestIncreasing.LongestSubsequence` | Foundation/LeetCode/动态规划/300、最长上升子序列.py:30-50 | None on the empty list; otherwise the values at increasing positions of the input, strictly increasing, and no increasing subsequence is longer |
| `Agreement.BothLengths` | Foundation/LeetCode/动态规划/300、最长上升子序列.py:14-50 | Run on one list, the quadratic version returns the length of the subsequence that the tails version returns; 0 and None on the empty list |
| `LongestIncreasing.RankIsPlace` | Foundation/LeetCode/动态规划/300、最长上升子序列.py:36-43 | The bisect position of a value among the tails is the length of the longest increasing subsequence ending there, less one |
| `LongestIncreasing.TailsExtend` | Foundation/LeetCode/动态规划/300、最长上升子序列.py:36-43 | helper[k] stays the least value that ends an increasing subsequence of length k+1 |
| `LongestIncreasing.EqualRanks` | Foundation/LeetCode/动态规划/300、最长上升子序列.py:46-49 | Values of equal rank never increase from left to right |
| `LongestIncreasing.TakeElement` | Foundation/LeetCode/动态规划/300、最长上升子序列.py:46-49 | Taking the rightmost value of the wanted rank keeps the rebuilt suffix increasing and leaves a predecessor to find |
| `LongestIncreasing.BisectLeft` | Foundation/LeetCode/动态规划/300、最长上升子序列.py:41 | bisect_left as a specified primitive: everything before the position is smaller, nothing from it on is |
| `ReversePairs.CountReversePairs` | Foundation/LeetCode/排序/493、翻转对.py:35-36 | Returns the number of index pairs p < q with nums[p] > 2*nums[q] of the original list, which is left a sorted permutation |
| `ReversePairs.MergeSort` | Foundation/LeetCode/排序/493、翻转对.py:38-49 | Returns the count for its range, leaves the range sorted and everything outside it unchanged |
| `ReversePairs.CountSplit` | Foundation/LeetCode/排序/493、翻转对.py:43-47 | The two-finger scan over two sorted halves counts exactly the cross pairs |
| `ReversePairs.CountIsPairs` | Foundation/LeetCode/排序/493、翻转对.py:38-49 | The inductive count is the cardinality of the set of reverse pairs |
| `ReversePairs.CrossOfSorted` | Foundation/LeetCode/排序/493、翻转对.py:42-48 | Sorting each half changes no cross count |
| `ReversePairs.HalvesAddUp` | Foundation/LeetCode/排序/493、翻转对.py:42-47 | Pairs of the whole = pairs of the halves + cross pairs |
| `EditDistance.MinDistance` | Foundation/LeetCode/动态规划/字符串+dp问题/72、编辑距离.py:10-28 | Returns the least length of a sequence of insertions, deletions and replacements at arbitrary positions that turns word1 into word2 |
| `EditDistance.NoShorterScript` | Foundation/LeetCode/动态规划/字符串+dp问题/72、编辑距离.py:22-28 | No script is shorter than the table's value |
| `EditDistance.ShortestScript` | Foundation/LeetCode/动态规划/字符串+dp问题/72、编辑距离.py:22-28 | Some script has that length |
| `EditDistance.ThreeMoves` | Foundation/LeetCode/动态规划/字符串+dp问题/72、编辑距离.py:24-27 | Taking the diagonal without a minimum when characters agree is exact: the three-way recurrence holds in both branches |
| `EditDistance.ApplyMovesDistance` | Foundation/LeetCode/动态规划/字符串+dp问题/72、编辑距离.py:22-28 | One edit anywhere in the word moves the distance by at most one |
| `MinWindow.FindMinWindow` | Foundation/LeetCode/滑动窗口/76. 最小覆盖子串.py:8-45 | Raises IndexError if and only if t is empty and s is not; otherwise returns "" exactly when no window covers t with multiplicity (or t is empty), and else the leftmost of the shortest covering windows |
| `MinWindow.ValidMeansCovered` | Foundation/LeetCode/滑动窗口/76. 最小覆盖子串.py:31 | valid == len(need) is exactly coverage, multiplicities included |
| `MinWindow.AddKeepsTracks` | Foundation/LeetCode/滑动窗口/76. 最小覆盖子串.py:19-29 | Taking a character in keeps window and valid describing the current window |
| `MinWindow.RemoveKeepsTracks` | Foundation/LeetCode/滑动窗口/76. 最小覆盖子串.py:37-44 | Letting a character go does too |
| `MinWindow.BestAfterShrink` | Foundation/LeetCode/滑动窗口/76. 最小覆盖子串.py:31-39 | Recording before moving the left end misses no shorter, and no equally short earlier, window |
| `MinWindow.CountNeeds` | Foundation/LeetCode/滑动窗口/76. 最小覆盖子串.py:9-14 | need counts the characters of t |
| `Histogram.Bars.LargestRectangleArea` | Foundation/LeetCode/队列，栈/84、柱状图中最大的矩形.py:18-28 | Raises IndexError if and only if some height is negative; otherwise returns the maximum over all intervals of width times minimum height (0 without bars); the caller's list keeps the appended 0 |
| `Histogram.PopStep` | Foundation/LeetCode/队列，栈/84、柱状图中最大的矩形.py:22-25 | A pop keeps the stack monotone, its area is that of a real interval, and accounts for every interval in which the popped bar is the leftmost lowest |
| `Histogram.PushStep` | Foundation/LeetCode/队列，栈/84、柱状图中最大的矩形.py:26 | A push keeps the stack monotone and everything accounted for |
| `Histogram.AllSettled` | Foundation/LeetCode/队列，栈/84、柱状图中最大的矩形.py:21-28 | After the trailing 0 the answer dominates every interval and is attained |
| `NextPermutation.Next` | Foundation/LeetCode/数组/31. 下一个排列.py:8-25 | Leaves a permutation of the input: the least one lexicographically greater than it, or ascending order when none is greater |
| `NextPermutation.NoneBetween` | Foundation/LeetCode/数组/31. 下一个排列.py:16-25 | No permutation lies strictly between the input and the result |
| `NextPermutation.FallingIsLast` | Foundation/LeetCode/数组/31. 下一个排列.py:15-20 | A list without an ascent is the last permutation |
| `NextPermutation.NoPivotStep` | Foundation/LeetCode/数组/31. 下一个排列.py:21-25 | The case that runs through index -1 ends in ascending order |
| `NextPermutation.SortedIsLeast` | Foundation/LeetCode/数组/31. 下一个排列.py:24 | Ascending order is the least permutation |
| `BstDelete.DeleteNode` | Foundation/LeetCode/树/450. 删除二叉搜索树中的节点.py:23-57 | On the objects, for every tree and key for which the recursion ends: returns the specified tree over a subset of the old nodes, including the self-call on the same root, and touches nothing outside the tree |
| `BstDelete.ReturnsIffEnds` | Foundation/LeetCode/树/450. 删除二叉搜索树中的节点.py:23-57 | For every tree, ordered or not, deleteNode returns if and only if along the search path and the chain of successor keys no copied key equals the key it replaces |
| `BstDelete.EndsRuns` | Foundation/LeetCode/树/450. 删除二叉搜索树中的节点.py:23-57 | Then two nested calls per level of the tree are enough |
| `BstDelete.RunEnds` | Foundation/LeetCode/树/450. 删除二叉搜索树中的节点.py:23-57 | Whatever the depth at which a call returned, the condition held and the specified tree is the result |
| `BstDelete.DuplicateKeyLoops` | Foundation/LeetCode/树/450. 删除二叉搜索树中的节点.py:28-33 | A search tree with one key twice on which deleting that key never returns |
| `BstDelete.DuplicateSuccessorLoops` | Foundation/LeetCode/树/450. 删除二叉搜索树中的节点.py:28-33 | A search tree on which deleting a unique key never returns, because its successor's key occurs twice |
| `BstDelete.DeletedKeys` | Foundation/LeetCode/树/450. 删除二叉搜索树中的节点.py:23-57 | On search trees, equal keys included: whenever the call returns, exactly one occurrence of the key is gone (none if there was none) and the result is a search tree |
| `BstDelete.DistinctKeysDeleted` | Foundation/LeetCode/树/450. 删除二叉搜索树中的节点.py:23-57 | With distinct keys the call always returns, the key set afterwards is the old one minus the key, and the keys stay ordered and distinct |
| `BstDelete.DeletedNoHigher` | Foundation/LeetCode/树/450. 删除二叉搜索树中的节点.py:23-57 | Deleting never makes the tree higher |
| `BstDelete.TakeSuccessor` | Foundation/LeetCode/树/450. 删除二叉搜索树中的节点.py:28-33 | The root keeps its node and takes its successor's key after that key was deleted from under the same root |
| `BstDelete.Splice` | Foundation/LeetCode/树/450. 删除二叉搜索树中的节点.py:43-46 | The right child without left subtree takes over the left subtree |
| `BstDelete.DescendLeft` | Foundation/LeetCode/树/450. 删除二叉搜索树中的节点.py:29-31 | The descent ends at the leftmost key |
| `BstDelete.LeftmostIsLeast` | Foundation/LeetCode/树/450. 删除二叉搜索树中的节点.py:29-31 | In a search tree that is the least key |
| `TreeCodec.DecodeOfEncode` | Foundation/LeetCode/递归/297. 二叉树的序列化与反序列化.py:13-48 | deserialize(serialize(t)) is t for every integer-valued binary tree, at string level |
| `TreeCodec.EncodeInjective` | Foundation/LeetCode/递归/297. 二叉树的序列化与反序列化.py:13-30 | Different trees never share a string |
| `TreeCodec.Serialize` | Foundation/LeetCode/递归/297. 二叉树的序列化与反序列化.py:13-30 | The string joins the texts of the objects and missing children below the root, listed by their paths: a path before its extensions, left before right |
| `TreeCodec.Deserialize` | Foundation/LeetCode/递归/297. 二叉树的序列化与反序列化.py:32-48 | For every string: raises StopIteration or ValueError as the parser does, or builds new objects, none in two places, that in the order of their paths hold the numbers of the tokens, with None where a token is '#'; surplus tokens are ignored |
| `TreeCodec.RoundTrip` | Foundation/LeetCode/递归/297. 二叉树的序列化与反序列化.py:13-48 | Serializing and parsing back yields new objects that form the same tree, with disjoint left and right subtrees at every node |
| `TreeCodec.TokenAtPlace` | Foundation/LeetCode/递归/297. 二叉树的序列化与反序列化.py:20-26 | There is one token per node or missing child, and the i-th is the text of what stands at the i-th path |
| `TreeCodec.ParsedAtPlace` | Foundation/LeetCode/递归/297. 二叉树的序列化与反序列化.py:38-45 | In any accepted list the i-th token is read into the i-th path of the result, and the rest is left over |
| `TreeCodec.PlacesInOrder` | Foundation/LeetCode/递归/297. 二叉树的序列化与反序列化.py:23-24 | The paths come in order: a path before its extensions, left before right |
| `TreeCodec.PlacesAreAll` | Foundation/LeetCode/递归/297. 二叉树的序列化与反序列化.py:20-26 | They are all the paths that stay in the tree |
| `TreeCodec.OrderIsUnique` | Foundation/LeetCode/递归/297. 二叉树的序列化与反序列化.py:20-26 | That order admits one listing only |
| `TreeCodec.DecodeOutcome` | Foundation/LeetCode/递归/297. 二叉树的序列化与反序列化.py:38-48 | deserialize returns if and only if some prefix of the tokens has one more '#' than numbers and is readable so far; raises ValueError if and only if an unreadable token comes first, and StopIteration if and only if the tokens run out first |
| `TreeCodec.ParseConsumesTokens` | Foundation/LeetCode/递归/297. 二叉树的序列化与反序列化.py:38-45 | The parser consumes exactly the tokens of each subtree |
| `TreeCodec.SplitOfJoin` | Foundation/LeetCode/递归/297. 二叉树的序列化与反序列化.py:30-47 | Splitting at ',' undoes joining with ',' |
| `TreeCodec.JoinOfSplit` | Foundation/LeetCode/递归/297. 二叉树的序列化与反序列化.py:47 | Joining undoes splitting, and no token contains a comma |
| `TreeCodec.JoinLayout` | Foundation/LeetCode/递归/297. 二叉树的序列化与反序列化.py:30 | Each token stands at the sum of the lengths before it, with one comma between neighbours and nothing else |
| `Numerals.StrIsDecimal` | Foundation/LeetCode/递归/297. 二叉树的序列化与反序列化.py:22 | str writes digits only, without leading zeros, whose values times the powers of ten of their places add up to the number, after '-' if it is negative |
| `Numerals.DecimalIsDigits` | Foundation/LeetCode/递归/297. 二叉树的序列化与反序列化.py:22 | There is only one such text |
| `Numerals.IntIffSpells` | Foundation/LeetCode/递归/297. 二叉树的序列化与反序列化.py:42 | int accepts exactly an optional sign and digits with single underscores between them, blanks around, and returns the value by position |
| `Numerals.IntOfStr` | Foundation/LeetCode/递归/297. 二叉树的序列化与反序列化.py:22-42 | int(str(n)) == n for every integer, and numerals contain no ',' and differ from '#' |

## Left out

- Networking, operating-system, message-queue and database examples, web-framework copies, and language-feature demos: thin layers over libraries that are not part of this model.
- The remaining exercises of the collection (plain traversals, single-pass array problems, simple binary searches): they would only add easy members.
- Unfinished solutions: not part of this model.
- Printing, timing, `__main__` drivers and Python's recursion limit.
- Numerals.ParseInt: covers ASCII blanks around the numeral, an optional sign, ASCII digits and single underscores between them; the non-ASCII digits and blanks that Python's int() also accepts are not modelled, and neither is its limit on very long numerals. The round trip does not depend on them.
- Futures: the event loop beyond the order of call_soon, tracebacks, `__del__`, `__await__` and the context chaining of CancelledError.
- Handshake.StepKeepsInv: each step is atomic and integers do not overflow; failure of scanf and of the semaphore calls is not modelled.
- LruCache.LRUCache.Get: keys and values are integers, as the source annotates them.
- EggDrop.SuperEggDrop: k <= 0 and n < 0 are outside the problem and not modelled.
- Sequences.Sorted: stands for Python's sorted on integers as a specified primitive; its sorting algorithm is not Python's.
