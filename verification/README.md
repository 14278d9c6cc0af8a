# Verified models of the algorithm listings and server components

The repository keeps C++ server components (an incremental HTTP parser, thread pools, a
connection pool, a blocking queue) and study notes with complete C++ and Java listings.
This project models the hard ones in Dafny and proves what each is for:

- `Common.dfy`: small shared notions.
- `BinaryTree.dfy`, `HeapTree.dfy`, `Morris.dfy`: threaded traversal of a tree without a stack.
- `TreeBuilding.dfy`: rebuilding a tree from two traversals, recursively and with a stack.
- `HttpRequest.dfy`: the two nested state machines of the request parser on a growing buffer.
- `CacheOps.dfy`, `LFU.dfy`, `LRU.dfy`: caches on two tables and on linked lists against plain maps and lists.
- `ResizingPool.dfy`, `WorkerPool.dfy`, `ConnectionPool.dfy`, `BlockQueue.dfy`: concurrent
  protocols as interleavings of atomic steps, with safety proved for every run.
- `UnionFind.dfy`, `CycleDetection.dfy`: disjoint sets and cycle entry on finite structures.
- `KMP.dfy`, `IncreasingSubsequence.dfy`, `Subsequences.dfy`, `Balloons.dfy`, `Division.dfy`:
  fast forms against the combinatorial or arithmetic statement they compute.

Code that changes things step by step is modelled by methods, classes and arrays, each
proved against a specification function or predicate; the properties of those are lemmas.
Concurrent code is a state datatype with one action per shared access and an inductive
invariant; mutexes, semaphores and atomics are ideal, and a semaphore wait returns only
after a decrement. `std::sort` is any permutation ordered by the comparator. Ghost
parameters name the tree, the node set or the history a statement is about and have no
influence on what is computed.

`dafny verify dfyconfig.toml` checks the whole project.

## Model

| member | source | states |
|---|---|---|
| `Morris.InorderTraversal` | 算法/18.Morris二叉树遍历.md:73-104 | for every finite tree it ends, lists exactly the labels of the recursive in-order, and leaves every pointer as it was |
| `Morris.PreorderTraversal` | 算法/18.Morris二叉树遍历.md:22-54 | the same for the pre-order |
| `Morris.PostorderTraversal` | 算法/18.Morris二叉树遍历.md:142-174 | the same for the post-order |
| `Morris.FindPredecessor` | 算法/18.Morris二叉树遍历.md:81-84 | in the threaded tree the inner loop ends at the in-order predecessor, whose right field is null on the way down and the current node on the way back |
| `Morris.SetThread` | 算法/18.Morris二叉树遍历.md:86-89 | setting the thread keeps the walk invariant, now standing at the left child |
| `Morris.CutThread` | 算法/18.Morris二叉树遍历.md:91-95 | cutting the thread gives that node back its own right field |
| `Morris.FollowRight` | 算法/18.Morris二叉树遍历.md:97-101 | following right, child or thread, always leads to the walk's next node |
| `Morris.AddPath` | 算法/18.Morris二叉树遍历.md:132-140 | the labels of a right spine are appended bottom up |
| `Morris.ListLeftSpine` | 算法/18.Morris二叉树遍历.md:162-167 | coming back to a node lists exactly the next stretch of the post-order |
| `Morris.PostSlice` | 算法/18.Morris二叉树遍历.md:163-166 | the post-order from that point on is the reversed right spine of the left subtree, for every tree and node |
| `Morris.PostorderEndsWithSpine` | 算法/18.Morris二叉树遍历.md:172-173 | every post-order ends with the tree's own right spine reversed |
| `Morris.RestoredTree` | 算法/18.Morris二叉树遍历.md:102-103 | when the walk is over the heap is the original tree again |
| `HttpRequest.ParseLine` | 计算机网络/图片/httprequest.cpp:39-74 | the in-place loop equals the line function Line1: status, new index and both NULs written |
| `HttpRequest.HttpConn.ParseLine` | 计算机网络/图片/parse_line.cpp:3-44 | the member version equals Line2 in the same sense |
| `HttpRequest.VersionsAgree` | 计算机网络/图片/parse_line.cpp:9-43 | the two scanners give the same result if and only if the scan does not resume on a line feed behind a carriage return |
| `HttpRequest.OnLineFeed` | 计算机网络/图片/parse_line.cpp:31-40 | on a line feed behind a carriage return the member version erases those two, the other the line feed and the byte behind it; on any other line feed both find a bad line |
| `HttpRequest.ReadyScan` | 计算机网络/图片/httprequest.cpp:43-73 | in every state the receive loop reaches, the scan does not resume that way, so the line-feed-after-carriage-return branch is dead, and the scan of the overwritten buffer sees what the raw bytes say |
| `HttpRequest.ScannersAgree` | 计算机网络/图片/parse_line.cpp:9-43 | so in every state the receive loop reaches, the two scanners do exactly the same |
| `HttpRequest.ParseRequestLine` | 计算机网络/图片/httprequest.cpp:77-126 | the verdict on a request line as a function of the line alone, and which bytes stay untouched |
| `HttpRequest.ParseTarget` | 计算机网络/图片/httprequest.cpp:98-125 | target and version, likewise |
| `HttpRequest.RequestLineGrammar` | 计算机网络/图片/httprequest.cpp:77-126 | a line is accepted if and only if its characters are G, E, T, blanks, a target, blanks, H, T, T, P, /, 1, ., 1, letters in either case, where the target starts with / or is h, t, t, p, :, /, / in either case with another / behind |
| `HttpRequest.GetIs` | 计算机网络/图片/httprequest.cpp:90-93 | the method test accepts exactly the three letters of GET, each in either case, up to the end of the word |
| `HttpRequest.VersionIs` | 计算机网络/图片/httprequest.cpp:109-112 | the version test accepts exactly the eight characters of HTTP/1.1, letters in either case |
| `HttpRequest.TargetIs` | 计算机网络/图片/httprequest.cpp:113-121 | the target test accepts exactly a first /, or http:// in either case with a / further on |
| `HttpRequest.ParseHeaders` | 计算机网络/图片/httprequest.cpp:129-141 | an empty line, and only that, completes the request |
| `HttpRequest.HandleLine` | 计算机网络/图片/httprequest.cpp:150-175 | one complete line advances the state machine exactly as the step function on the raw bytes says |
| `HttpRequest.ParseNext` | 计算机网络/图片/httprequest.cpp:149-176 | one turn of the loop: the verdict of all bytes so far, or a resumable state behind one more line |
| `HttpRequest.ParseContent` | 计算机网络/图片/httprequest.cpp:144-182 | resumed on any reachable state, it returns the verdict of all bytes received so far, read at once |
| `HttpRequest.StepOfPrefix` | 计算机网络/图片/httprequest.cpp:149-176 | a line decided on a prefix of the stream is decided the same way on the whole |
| `HttpRequest.VerdictOfPrefix` | 计算机网络/图片/httprequest.cpp:144-182 | a verdict reached on a prefix is never changed by later bytes |
| `HttpRequest.Receive` | 计算机网络/图片/httprequest.cpp:245-248 | one recv of any length keeps the resumable state |
| `HttpRequest.ReceiveLoop` | 计算机网络/图片/httprequest.cpp:236-256 | the loop stops with the verdict of the bytes it read |
| `HttpRequest.Serve` | 计算机网络/图片/httprequest.cpp:229-256 | for every stream and every way of cutting it into reads, the outcome is the one-shot verdict of the bytes that arrived |
| `HttpRequest.AcceptedStreams` | 计算机网络/图片/httprequest.cpp:144-182 | every stream, NULs included: it is accepted if and only if it starts with a request line of that grammar, header lines and an empty line, each ended by CR LF, where a line is seen up to its first NUL |
| `HttpRequest.StreamVerdict` | 计算机网络/图片/httprequest.cpp:144-182 | every stream is accepted, pending or rejected if and only if its lines have that shape: an empty line behind them, no line end yet, or a broken line or a request line outside the grammar |
| `HttpRequest.ShortRequest` | 计算机网络/图片/httprequest.cpp:144-182 | the eighteen characters of GET / HTTP/1.1 and two line ends are a complete request |
| `LFU.LFUCache.constructor` | 算法/31.LFU.md:35-40 | an empty cache |
| `LFU.LFUCache.Get` | 算法/31.LFU.md:42-58 | answers and changes state as the stamped map does (what that answers is in Run); both tables, every iterator, minfreq and the size bound stay true |
| `LFU.LFUCache.Put` | 算法/31.LFU.md:60-89 | the same for put, eviction included |
| `LFU.LFUCache.MoveUp` | 算法/31.LFU.md:46-56 | moving a node to the next frequency is one use of its key |
| `LFU.LFUCache.EvictBack` | 算法/31.LFU.md:65-73 | the node dropped is the fewest-used and, on ties, the one used longest ago |
| `LFU.BackIsVictim` | 算法/31.LFU.md:66-67 | the back of the minfreq list is that unique victim |
| `LFU.VictimUnique` | 算法/31.LFU.md:66-69 | there is only one victim |
| `LFU.UseOk` | 算法/31.LFU.md:48-56 | erase, minfreq update and push-front keep tables and minimum true |
| `LFU.UseMin` | 算法/31.LFU.md:50-53 | raising minfreq by one finds the true minimum |
| `LFU.EvictOk` | 算法/31.LFU.md:67-72 | removing the victim keeps the tables true |
| `LFU.Run` | 算法/31.LFU.md:42-89 | for every sequence and capacity there is one answer for each get, and it is the value last put if the key is cached then and -1 otherwise; with capacity 0 every answer is -1 |
| `LFU.RunAnswers` | 算法/31.LFU.md:42-58 | the stamped map's answers are those |
| `LFU.RunCounts` | 算法/31.LFU.md:47-55 | after every sequence the uses of a cached key are the operations on it since it last entered, and its value is the one last put |
| `LFU.RunStamps` | 算法/31.LFU.md:54-56 | after every sequence the stamps order the cached keys as their last operations do |
| `LFU.Retained` | 算法/31.LFU.md:60-76 | starting from nothing, a key is cached after an operation if and only if it was just put, or was cached and is not the one with the fewest operations since it entered, on ties the oldest last operation, when an uncached key is put into a full cache |
| `Subsequences.LongestCommonSubsequence` | 算法/2.动态规划3_子序列问题.md:49-64 | the table's corner is the length of a longest common subsequence |
| `Subsequences.LcsIsLongest` | 算法/2.动态规划3_子序列问题.md:53-62 | the recurrence is the maximum over all common subsequences |
| `Subsequences.LongestPalindromeByReversal` | 算法/2.动态规划3_子序列问题.md:82-99 | LCS with the reversal is the length of a longest palindromic subsequence |
| `Subsequences.LongestPalindromeByIntervals` | 算法/2.动态规划3_子序列问题.md:127-143 | so is the interval table's corner |
| `Subsequences.LpsIsLongest` | 算法/2.动态规划3_子序列问题.md:130-141 | the interval recurrence is the maximum over all palindromic subsequences |
| `Subsequences.FacingPalindrome` | 算法/2.动态规划3_子序列问题.md:82-98 | a common subsequence of a string and its reversal, not itself a palindrome, still yields a palindrome at least as long |
| `Subsequences.LcsOfReversal` | 算法/2.动态规划3_子序列问题.md:82-99 | the two methods give the same number for every string |
| `Balloons.MaxCoins` | 算法/2.动态规划4_变量方向和更改定义.md:26-41 | for every vector no bursting order beats the table's answer, and without negative values it is the maximum over every order, reached by one |
| `Balloons.FillCell` | 算法/2.动态规划4_变量方向和更改定义.md:34-38 | one cell is the best of its interval and no other cell changes |
| `Balloons.SplitCoins` | 算法/2.动态规划4_变量方向和更改定义.md:33-38 | any order's total is that of its last balloon and the two orders it induces left and right |
| `Balloons.JoinOrders` | 算法/2.动态规划4_变量方向和更改定义.md:33-38 | any two such orders can be joined into one with that total |
| `Balloons.CoinsBound` | 算法/2.动态规划4_变量方向和更改定义.md:33-40 | no order beats the recurrence |
| `Balloons.CoinsReached` | 算法/2.动态规划4_变量方向和更改定义.md:33-40 | where no balloon costs coins, some order reaches it |
| `Balloons.AnswerBounds` | 算法/2.动态规划4_变量方向和更改定义.md:26-41 | for every vector, negative values included, no order beats either listing's answer |
| `Balloons.AnswerIsMax` | 算法/2.动态规划4_变量方向和更改定义.md:26-41 | without negative values both answers are the maximum over all orders |
| `Balloons.TableRightIff` | 算法/2.动态规划4_变量方向和更改定义.md:32-40 | the table is right on a vector and every stretch of it if and only if no value is negative |
| `Balloons.SingleAnswer` | 算法/2.动态规划4_变量方向和更改定义.md:59-72 | on one balloon a listing is right if and only if the value is not below what its maximum starts from, 0 or -1 |
| `Balloons.NegativeFails` | 算法/2.动态规划4_变量方向和更改定义.md:32-36 | the table answers 0 for [-1] and the memo -1 for [-2], which no order pays |
| `Balloons.Solution.Solve` | 算法/2.动态规划4_变量方向和更改定义.md:59-72 | on any memo whose cells it can read, a cell other than -1 is believed and everything else follows the recurrence; only cells of its own interval are filled |
| `Balloons.Solution.MaxCoins` | 算法/2.动态规划4_变量方向和更改定义.md:74-83 | on an object in any state, the answer for the memo that resize leaves; if every cell of it is empty or right for the new vector, no order beats the answer and without negative values it is the maximum |
| `Balloons.RecalledRight` | 算法/2.动态规划4_变量方向和更改定义.md:63-71 | a memo whose cells are empty or right changes no answer |
| `Balloons.FirstCall` | 算法/2.动态规划4_变量方向和更改定义.md:74-83 | a first call on a new object is right: no order beats the answer and without negative values it is the maximum |
| `Balloons.CallAgain` | 算法/2.动态规划4_变量方向和更改定义.md:81-82 | resize resets no cell, so every later call that is not longer answers the first call's cell for that length, whatever its values, as long as that cell is not -1 |
| `Balloons.ReuseRightIff` | 算法/2.动态规划4_变量方向和更改定义.md:81-82 | without negative values a second call of the same length is right if and only if both vectors have the same maximum |
| `Balloons.ReuseFails` | 算法/2.动态规划4_变量方向和更改定义.md:81-82 | [3] and then [5] on one object: the second answer is 3, not 5 |
| `Balloons.LongerOutOfBounds` | 算法/2.动态规划4_变量方向和更改定义.md:81-81 | a call longer than the rows already there reads past them |
| `LRU.LRUCache.constructor` | 算法/28.LRU..md:199-205 | an empty chain between the two dummies |
| `LRU.LRUCache.AddToHead` | 算法/28.LRU..md:244-249 | the chain stays doubly linked with the node behind head |
| `LRU.LRUCache.RemoveNode` | 算法/28.LRU..md:251-254 | the chain stays doubly linked without the node |
| `LRU.LRUCache.MoveToHead` | 算法/28.LRU..md:256-259 | the node comes first, the others keep their order |
| `LRU.LRUCache.RemoveTail` | 算法/28.LRU..md:261-265 | the node before tail leaves |
| `LRU.LRUCache.Get` | 算法/28.LRU..md:207-215 | chain, map and size stay consistent and the answer is the plain list's |
| `LRU.LRUCache.Put` | 算法/28.LRU..md:217-242 | likewise, eviction included |
| `LRU.ListLRUCache.Get` | 算法/28.LRU..md:32-40 | the list version does the same on its own list, every iterator in its map staying valid |
| `LRU.ListLRUCache.Put` | 算法/28.LRU..md:42-60 | likewise |
| `LRU.RunLinked` | 算法/28.LRU..md:190-266 | for every sequence the hand-linked cache gives one answer for each get, the value last put if the key is cached then and -1 otherwise, as the plain list does |
| `LRU.RunListed` | 算法/28.LRU..md:28-66 | and so does the std::list cache, hence both agree on every sequence |
| `LRU.RunRecency` | 算法/28.LRU..md:23-25 | after every sequence the entries stand in the order of their keys' last operations, hold the values last put and number at most the capacity |
| `LRU.Retained` | 算法/28.LRU..md:42-60 | starting from nothing, a key is cached after an operation if and only if it was just put, or was cached and is not the key with the oldest last operation when an uncached key is put into a full cache |
| `LRU.Answered` | 算法/28.LRU..md:32-40 | the plain list answers the value last put for a cached key, and -1 otherwise |
| `LRU.RunAnswers` | 算法/28.LRU..md:32-40 | so does every get of every sequence |
| `LRU.Touched` | 算法/28.LRU..md:32-60 | one get or put keeps that order, whatever it evicts |
| `ResizingPool.NextInv` | 算法/手撕/9.线程池.cpp:78-182 | every atomic step of manager, worker, constructor, destructor or submitter keeps the invariant |
| `ResizingPool.WorkerInv` | 算法/手撕/9.线程池.cpp:109-142 | every step of a worker keeps it: what it holds of the mutex, the counters and the queue |
| `ResizingPool.WorkerTakes` | 算法/手撕/9.线程池.cpp:112-131 | a worker is let in only for a task, a destroy ticket or shutdown, and takes out the head of the queue, to hold it if and only if it has a function |
| `ResizingPool.WorkerDecides` | 算法/手撕/9.线程池.cpp:116-126 | a worker retires if and only if it took a destroy ticket and saw more threads than the minimum, exits if and only if it saw shutdown, and fetches otherwise |
| `ResizingPool.ManagerInv` | 算法/手撕/9.线程池.cpp:78-106 | every step of the manager does |
| `ResizingPool.ManagerReads` | 算法/手撕/9.线程池.cpp:82-84 | the three counts it decides by are the queue, live and busy counts at three successive moments |
| `ResizingPool.ManagerCreates` | 算法/手撕/9.线程池.cpp:87-87 | it goes to create threads if and only if the queue it read is longer than the live count it read, and that below the maximum |
| `ResizingPool.PassDecides` | 算法/手撕/9.线程池.cpp:90-96 | a pass ends if and only if two were created, the maximum live or the slots are through, and creates a thread exactly in an unused slot |
| `ResizingPool.AtMostTwo` | 算法/手撕/9.线程池.cpp:89-97 | in every run a pass creates at most two threads, as many as it counted |
| `ResizingPool.ManagerRetires` | 算法/手撕/9.线程池.cpp:100-103 | it goes to retire threads if and only if fewer than half of the live threads it read were busy and they were more than the minimum; only then m_destory_num rises |
| `ResizingPool.ManagerLoops` | 算法/手撕/9.线程池.cpp:79-79 | it ends if and only if it sees shutdown between passes |
| `ResizingPool.ConstructInv` | 算法/手撕/9.线程池.cpp:146-156 | every step of the constructor does |
| `ResizingPool.RunInv` | 算法/手撕/9.线程池.cpp:78-182 | the invariant holds in every state of every interleaving |
| `ResizingPool.PoolBounds` | 算法/手撕/9.线程池.cpp:70-156 | min ≤ live ≤ max, 0 ≤ m_destory_num ≤ 2, busy ≤ live, at most max threads are ever created, live = created − retired − the one thread created but not yet counted, and tasks leave in the order they came |
| `ResizingPool.EachTaskOnce` | 算法/手撕/9.线程池.cpp:128-141 | in every state of every run each pushed task with a function is queued, or held by a worker, or was run, as often as it was pushed; a task without one is neither held nor run |
| `ResizingPool.LetIn` | 算法/手撕/9.线程池.cpp:175-182 | tasks are let in only before shutdown, and one that is pushed joins the end of the queue |
| `ResizingPool.HeadIsRun` | 算法/手撕/9.线程池.cpp:109-142 | from every reachable state with the mutex free, a waiting worker, a task and neither ticket nor shutdown, that worker can take out the head and run it |
| `ResizingPool.CanTicket` | 算法/手撕/9.线程池.cpp:100-104 | a manager that wants to retire threads can hand out two tickets, after which it starts its next pass with the mutex free |
| `ResizingPool.CanRetire` | 算法/手撕/9.线程池.cpp:114-121 | with a destroy ticket and a spare thread a waiting worker can retire, whether or not there is a task |
| `ResizingPool.CanExit` | 算法/手撕/9.线程池.cpp:124-126 | at shutdown a waiting worker can exit while tasks are still queued |
| `ResizingPool.FirstTask` | 算法/手撕/9.线程池.cpp:146-182 | on a new pool with at least one worker any submitted task can be run |
| `ResizingPool.RetiredGrow` | 算法/手撕/9.线程池.cpp:116-121 | a retired thread stays retired |
| `ResizingPool.NeverRegrows` | 算法/手撕/9.线程池.cpp:87-97 | once r threads have retired, live never exceeds max − r again: joinable() stays true, so freed slots are not reused |
| `WorkerPool.AppenderInv` | 计算机网络/图片/threadpool.h:71-98 | every step of append or append_p keeps the invariant, in which whoever is refused has found the queue full |
| `WorkerPool.AppendDecides` | 计算机网络/图片/threadpool.h:74-82 | an append pushes its request at the end if and only if the queue is below max_requests, else it is refused and changes nothing |
| `WorkerPool.WorkerInv` | 计算机网络/图片/threadpool.h:107-120 | every step of a worker does |
| `WorkerPool.WorkerDecides` | 计算机网络/图片/threadpool.h:111-119 | a worker past the semaphore pops the head of the queue, or enters the empty branch if and only if there is none |
| `WorkerPool.RunInv` | 计算机网络/图片/threadpool.h:71-120 | the invariant holds in every state of every interleaving of any number of both |
| `WorkerPool.PoolSafety` | 计算机网络/图片/threadpool.h:71-120 | in every state of every run: queue length = semaphore + workers past wait and not yet popped + appenders pushed and not yet posted; the empty-queue branch is never entered; the queue never exceeds max_requests, and equals it whenever an append is being refused; accepted requests are dispatched once each, in order |
| `WorkerPool.EachRequestOnce` | 计算机网络/图片/threadpool.h:118-159 | in every state of every run each accepted request but NULL is queued, or held by a worker, or was processed, as often as it was accepted |
| `WorkerPool.Appends` | 计算机网络/图片/threadpool.h:71-98 | from every reachable state with the mutex free and room in the queue an idle thread can append its request |
| `WorkerPool.Handles` | 计算机网络/图片/threadpool.h:111-159 | from every reachable state with the mutex free and the semaphore positive a waiting worker can process the head |
| `WorkerPool.FirstRequest` | 计算机网络/图片/threadpool.h:71-159 | a new pool with a worker can process any request |
| `ConnectionPool.InitPool` | 计算机网络/图片/sql_connection_pool.cpp:35-58 | the loop of init leaves every connection listed and counted, with semaphore and maximum set from the count |
| `ConnectionPool.InitInv` | 计算机网络/图片/sql_connection_pool.cpp:35-58 | that state satisfies the invariant |
| `ConnectionPool.BalanceStep` | 计算机网络/图片/sql_connection_pool.cpp:67-75 | list length = semaphore + users past wait + returns not yet posted accounts for every step, so front() never meets an empty list |
| `ConnectionPool.PartitionStep` | 计算机网络/图片/sql_connection_pool.cpp:74-92 | each connection stays in the list or in one pair of hands |
| `ConnectionPool.CountersStep` | 计算机网络/图片/sql_connection_pool.cpp:77-78 | the two counters lag behind by exactly the lines not yet executed under the mutex |
| `ConnectionPool.RunInv` | 计算机网络/图片/sql_connection_pool.cpp:63-100 | the invariant holds in every state of every interleaving |
| `ConnectionPool.PoolSafety` | 计算机网络/图片/sql_connection_pool.cpp:63-100 | free and held connections partition the initial ones; every listed one is announced by the semaphore or by a user; m_FreeConn is the list's length and m_FreeConn + m_CurConn = m_MaxConn whenever the mutex is free; no pop on an empty list although the size test is outside the mutex |
| `ConnectionPool.CallDecides` | 计算机网络/图片/sql_connection_pool.cpp:67-70 | a call answers NULL if and only if the list was empty when it looked, and otherwise goes on to wait for the semaphore |
| `ConnectionPool.HeadIsTaken` | 计算机网络/图片/sql_connection_pool.cpp:74-92 | whoever is let in takes the head of the list, and what is given back joins its end |
| `ConnectionPool.NullMeansAllHeld` | 计算机网络/图片/sql_connection_pool.cpp:67-68 | in every run, when a call answers NULL every connection is in somebody's hands |
| `ConnectionPool.Gets` | 计算机网络/图片/sql_connection_pool.cpp:63-82 | from every reachable state with the mutex free and the semaphore positive a user can get the head of the list |
| `ConnectionPool.GetAndGiveBack` | 计算机网络/图片/sql_connection_pool.cpp:63-100 | and giving it back restores everything but the order of the list |
| `ConnectionPool.FirstCall` | 计算机网络/图片/sql_connection_pool.cpp:35-82 | in a new pool with connections any user can get the first |
| `ConnectionPool.NeverShared` | 计算机网络/图片/sql_connection_pool.cpp:134-143 | two users never hold the same connection, and none they hold is in the list |
| `TreeBuilding.BuildPreIn` | 算法/22.由遍历得到二叉树结构.md:41-60 | on the pre-order and in-order ranges of any tree with distinct labels the helper returns that tree, in fresh nodes without sharing |
| `TreeBuilding.BuildTreePreIn` | 算法/22.由遍历得到二叉树结构.md:32-38 | and so does buildTree |
| `TreeBuilding.BuildInPost` | 算法/22.由遍历得到二叉树结构.md:189-207 | on the in-order and post-order ranges likewise |
| `TreeBuilding.BuildTreeInPost` | 算法/22.由遍历得到二叉树结构.md:209-216 | and so does buildTree |
| `TreeBuilding.IndexOf` | 算法/22.由遍历得到二叉树结构.md:33-36 | every label is mapped to its place |
| `TreeBuilding.SameTraversals` | 算法/22.由遍历得到二叉树结构.md:30-61 | pre-order and in-order with distinct labels determine the tree |
| `TreeBuilding.StackBuildPreIn` | 算法/22.由遍历得到二叉树结构.md:126-152 | the stack-based builder returns, in fresh nodes without sharing, exactly the tree whose pre-order and in-order it was given, never indexing past the in-order; so it agrees with the recursive one |
| `TreeBuilding.StackBuildInPost` | 算法/22.由遍历得到二叉树结构.md:259-284 | the same from in-order and post-order read from the end |
| `TreeBuilding.StackBuild` | 算法/22.由遍历得到二叉树结构.md:131-151 | the loop makes the nodes in pre-order and links each to its children |
| `TreeBuilding.AddNext` | 算法/22.由遍历得到二叉树结构.md:135-150 | each round hangs the next label below the right node and keeps the stack the list of nodes whose right subtree is still open |
| `TreeBuilding.AttachedJoins` | 算法/22.由遍历得到二叉树结构.md:138-148 | the new child is linked where the tree has it and nowhere else |
| `TreeBuilding.PopComplete` | 算法/22.由遍历得到二叉树结构.md:142-146 | the inner loop pops exactly up to the node that gets a right child |
| `TreeBuilding.AfterPop` | 算法/22.由遍历得到二叉树结构.md:142-146 | after a pop either the next node in order is complete and on top, or the popped one has a right child, which comes next |
| `TreeBuilding.PopTest` | 算法/22.由遍历得到二叉树结构.md:142-142 | the loop test never leaves the in-order array and holds exactly while there is a complete node to pop |
| `TreeBuilding.RoundTest` | 算法/22.由遍历得到二叉树结构.md:136-137 | the branch test holds exactly when the last node has a left child |
| `TreeBuilding.MirrorPreorder` | 算法/22.由遍历得到二叉树结构.md:263-267 | a post-order read backwards is the mirror tree's pre-order |
| `TreeBuilding.MirrorInorder` | 算法/22.由遍历得到二叉树结构.md:266-266 | an in-order read backwards is the mirror tree's in-order |
| `KMP.ComputePrefixFunction` | 算法/14.kmp.md:18-32 | pi[i] is the longest proper border of every prefix, with at most as many fallbacks as characters |
| `KMP.Fall` | 算法/14.kmp.md:24-26 | falling back to the longest border misses no candidate |
| `KMP.Kmp` | 算法/14.kmp.md:35-54 | the result is exactly the increasing list of all occurrences, overlapping ones included, with at most as many fallbacks as the text has characters |
| `KMP.GetNext` | 算法/14.kmp.md:80-92 | next[i] is one less than the longest border of each prefix |
| `KMP.StrStr` | 算法/14.kmp.md:93-112 | the first occurrence, -1 if there is none, 0 for an empty needle |
| `KMP.FirstOfAll` | 算法/14.kmp.md:35-112 | the two searches agree: strStr's answer is the first element of the list |
| `KMP.GetNextPlain` | 算法/14.kmp.md:182-206 | next[i] is the longest border of what precedes position i, next[0] = -1 |
| `KMP.GetNextVal` | 算法/14.kmp.md:216-237 | nextval[i] is the longest border of what precedes i that is followed by a different character, or -1 |
| `KMP.FallVal` | 算法/14.kmp.md:232-235 | falling back through nextval misses no candidate either |
| `IncreasingSubsequence.LengthOfLisQuadratic` | 算法/2.动态规划1_最长递增子序列.md:19-31 | the table's maximum is the length of a longest increasing subsequence |
| `IncreasingSubsequence.FillEntry` | 算法/2.动态规划1_最长递增子序列.md:24-28 | each entry is the longest one ending there |
| `IncreasingSubsequence.LengthOfLis` | 算法/2.动态规划1_最长递增子序列.md:73-98 | the binary-search version returns the same length |
| `IncreasingSubsequence.LastBelow` | 算法/2.动态规划1_最长递增子序列.md:84-93 | the search finds the slot between the smaller and the other tails |
| `IncreasingSubsequence.PutTail` | 算法/2.动态规划1_最长递增子序列.md:80-95 | the tails stay strictly increasing and each the least possible tail of its length |
| `IncreasingSubsequence.TailsCount` | 算法/2.动态规划1_最长递增子序列.md:97-97 | their number is the length asked for |
| `IncreasingSubsequence.LisUnique` | 算法/2.动态规划1_最长递增子序列.md:19-98 | the two versions agree on every input |
| `IncreasingSubsequence.FindPile` | 算法/2.动态规划1_最长递增子序列.md:140-149 | the three-way search finds the same slot |
| `IncreasingSubsequence.ChainsAreSubsequences` | 算法/2.动态规划1_最长递增子序列.md:128-131 | after sorting by width, height descending on ties, longest chains strictly nested in both dimensions are longest increasing subsequences of the heights |
| `IncreasingSubsequence.MaxEnvelopes` | 算法/2.动态规划1_最长递增子序列.md:126-156 | for every result sort may leave, the length of a longest chain of given envelopes, each fitting strictly into the next |
| `UnionFind.Djset.constructor` | leetcode/547.省份数量_并查集.md:37-43 | n singletons |
| `UnionFind.Djset.Find` | leetcode/547.省份数量_并查集.md:44-49 | ends, returns the root, keeps the partition, and leaves each parent as it was or compressed to its root |
| `UnionFind.Djset.Merge` | leetcode/547.省份数量_并查集.md:50-61 | adds one pair to the relation; count drops exactly if the two were not connected |
| `UnionFind.Compress` | leetcode/547.省份数量_并查集.md:46-47 | path compression keeps the forest and its classes |
| `UnionFind.Joined` | leetcode/547.省份数量_并查集.md:56-60 | hanging the smaller root below the larger joins exactly the two classes and keeps sizes, ranks and count true |
| `UnionFind.SameIffConnected` | leetcode/547.省份数量_并查集.md:44-55 | two elements have one root if and only if merged pairs connect them |
| `UnionFind.RootsCountComponents` | leetcode/547.省份数量_并查集.md:60-60 | the number of roots is the number of connected components |
| `UnionFind.DepthLogarithmic` | leetcode/547.省份数量_并查集.md:56-59 | two to the depth of an element is at most its component's size |
| `UnionFind.DjsetMeaning` | leetcode/547.省份数量_并查集.md:31-62 | after any merges: count is the number of components, size at a root its component's cardinality, depth at most its logarithm |
| `UnionFind.FindCircleNum` | leetcode/547.省份数量_并查集.md:18-30 | the number of connected components of the matrix read as an undirected graph |
| `CycleDetection.HasCycle` | 算法/10.双指针1_链表.md:178-193 | for every finite structure it ends, with true exactly when the list never ends |
| `CycleDetection.DetectCycle` | 算法/10.双指针1_链表.md:198-220 | it ends, with null exactly when the list ends, and otherwise the first node of the cycle |
| `CycleDetection.Chase` | 算法/10.双指针1_链表.md:200-205 | the pointers meet exactly on cyclic lists, after a whole number of turns |
| `CycleDetection.Converge` | 算法/10.双指针1_链表.md:212-219 | from head and meeting point in step, the first common node is the entry |
| `CycleDetection.Shape` | 算法/10.双指针1_链表.md:197-221 | every finite structure is a chain that ends or turns back to one of its own nodes |
| `CycleDetection.SameNode` | 算法/10.双指针1_链表.md:215-218 | two visits meet the same node exactly when both are on the cycle a multiple of its length apart |
| `CycleDetection.EntryUnique` | 算法/10.双指针1_链表.md:214-219 | there is only one such node |
| `Division.Add` | 算法/34.位运算.md:182-190 | the xor and carry loop ends within 32 rounds with the sum modulo 2^32 |
| `Division.CarryClears` | 算法/34.位运算.md:185-185 | every round clears one more low bit of the carry |
| `Division.SumKept` | 算法/34.位运算.md:184-187 | every round keeps the sum modulo 2^32 |
| `Division.Sub` | 算法/34.位运算.md:191-194 | the difference modulo 2^32 |
| `Division.MulEnds` | 算法/34.位运算.md:196-205 | the loop of mul reaches zero if and only if neither operand is -2147483648, whose magnitude stays negative under every right shift |
| `Division.Mul` | 算法/34.位运算.md:195-208 | whenever the loop ends, the product modulo 2^32 |
| `Division.DivideBits` | 算法/34.位运算.md:212-218 | for magnitudes the quotient and remainder, no shift overflowing; and what the loop leaves for the other operands |
| `Division.BitTaken` | 算法/34.位运算.md:214-217 | taking a bit neither overflows nor meets a bit already set |
| `Division.Div` | 算法/34.位运算.md:209-221 | for all operands: the quotient truncated toward zero if and only if neither is -2147483648 and the divisor is not 0, and the exact value it returns otherwise |
| `Division.DivideLeast` | 算法/34.位运算.md:229-232 | two steps divide the least number exactly |
| `Division.Divide` | 算法/34.位运算.md:222-234 | for all operands: the truncated quotient if and only if b is not 0 and it is not -2147483648 / -1, which gives 2147483647; and the value returned for b = 0 |
| `Division.QuotientUnique` | 算法/34.位运算.md:222-234 | the truncated quotient is unique |
| `BlockQueue.BlockQueue.constructor` | 计算机网络/图片/block_queue.h:20-32 | an empty queue |
| `BlockQueue.BlockQueue.Clear` | 计算机网络/图片/block_queue.h:34-41 | empty again |
| `BlockQueue.BlockQueue.Full` | 计算机网络/图片/block_queue.h:52-63 | exactly when the contents fill the capacity |
| `BlockQueue.BlockQueue.Empty` | 计算机网络/图片/block_queue.h:65-75 | exactly when there are none |
| `BlockQueue.BlockQueue.Size` | 计算机网络/图片/block_queue.h:103-112 | their number |
| `BlockQueue.BlockQueue.Back` | 计算机网络/图片/block_queue.h:90-101 | the last of them |
| `BlockQueue.BlockQueue.Push` | 计算机网络/图片/block_queue.h:128-148 | appends, or changes nothing when full |
| `BlockQueue.BlockQueue.Take` | 计算机网络/图片/block_queue.h:165-169 | hands out the head |
| `BlockQueue.BlockQueue.Pop` | 计算机网络/图片/block_queue.h:151-170 | the head, or a wait on an unchanged queue |
| `BlockQueue.BlockQueue.TimedWoken` | 计算机网络/图片/block_queue.h:191-201 | the head, or failure on an unchanged queue |
| `BlockQueue.BackCongruent` | 计算机网络/图片/block_queue.h:140-140 | m_back ≡ m_front + m_size modulo the capacity |
| `BlockQueue.RunConserves` | 计算机网络/图片/block_queue.h:128-202 | over every interleaving: popped followed by queued is what was pushed since the last clear, and the bound holds |
| `BlockQueue.OnlySuccessChanges` | 计算机网络/图片/block_queue.h:132-138 | a failed or waiting operation changes nothing; a pop hands out the oldest item left |
| `BlockQueue.RunAnswers` | 计算机网络/图片/block_queue.h:128-202 | over every interleaving: a push is accepted if and only if fewer than the capacity are left; a pop that enters or was signalled hands out the oldest item left, and with none left waits, the timed one only once; an unsignalled wake-up fails |
| `BlockQueue.HistoriesGrow` | 计算机网络/图片/block_queue.h:34-202 | exactly an accepted push, a pop that takes and clear change what was pushed and popped since the last clear |
| `BlockQueue.SleepersChange` | 计算机网络/图片/block_queue.h:151-201 | a thread sleeps in a pop exactly while its last answer was to wait |
| `BlockQueue.Perform` | 计算机网络/图片/block_queue.h:128-202 | one atomic step of any thread on the ring array is that of the bounded FIFO |
| `BlockQueue.Run` | 计算机网络/图片/block_queue.h:20-202 | every interleaving of push, pop, timed pop, clear and front is answered as by the bounded FIFO |
| `BlockQueue.BlockQueue.Front` | 计算机网络/图片/block_queue.h:77-88 | what front reads: nothing when empty, outside the array before the first pop, else the slot at m_front |
| `BlockQueue.FrontIsHead` | 计算机网络/图片/block_queue.h:85-85 | in every reachable non-empty state front shows the head if and only if the capacity is 1 and something was popped since the last clear |
| `BlockQueue.FrontFails` | 计算机网络/图片/block_queue.h:85-85 | with capacity 2, after one push it reads outside the array, and after two pushes and a pop it shows the popped item |

## Left out

- Fixed-width overflow outside `Division.dfy` and the HTTP indices: coins, lengths, counters and frequencies are unbounded integers.
- KMP.Kmp: needs a non-empty pattern, since the listing reads pi[-1] on an empty one; GetNext, GetNextPlain and GetNextVal write entry 0 and need a non-empty string.
- IncreasingSubsequence.LengthOfLisQuadratic: needs a non-empty vector, since the listing dereferences the end iterator on an empty one.
- Subsequences.LongestPalindromeByIntervals: needs a non-empty string, since the listing reads dp[0][-1] on an empty one.
- Division.Mul: its precondition is that the listing's loop ends; Division.MulEnds says on which operands, and divide passes no others.
- Balloons.Solution.MaxCoins: its precondition is that the recursion reads only cells that exist, which fails on a used object for a longer vector (Balloons.LongerOutOfBounds); with negative values the first call has only the bound and the one-balloon case, and later calls nothing where the old cell is -1.
- LRU.LRUCache.constructor: the capacity is at least 1; with capacity 0 the std::list version takes the back of an empty list.
- HttpRequest.Serve: bytes are characters, messages printed and sent are not modelled, and the INTERNAL_ERROR default of the switch has no state to reach it.
- BlockQueue.Run: the deadline arithmetic of the timed pop is a nondeterministic timeout, and the constructor's exit on a size that is not positive is a precondition.
- WorkerPool.PoolSafety: the m_state store of append and what processing a request does are not modelled; processing is one step.
- ResizingPool.PoolBounds: joining threads at destruction and printing are not modelled; running a task is one step.
- ConnectionPool.PoolSafety: covers everything before DestroyPool; the database calls are opaque.
- Liveness: that a task, request or call can be served is proved, that it must be is not: no fairness or wake-up property of any pool or queue is stated; in the resizing pool a task can be added between another thread's test and its wait.
- The second, mirrored post-order listing of the Morris notes, the DFS and BFS versions of findCircleNum, and the TTL and LRU-K caches.
- Sockets, epoll, signals, timers, logging, and `process_read.cpp`, whose callees are not part of this model.
- Listings that do not do what their notes say (the first `mul` and the fast-subtraction `divide` of the bit notes, KMP `index0`, trie `remove`, Dijkstra's seeding, median-of-three quicksort).
- Sorting, searching, counting and the Java, database and diary notes, which would only add easy members.
