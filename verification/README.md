# Verified models of the structures and protocols

A set of small data structures and concurrency protocols, modelled in Dafny and proved. Most of them come in tiers: a
plain one that is its own specification, and a faster or a concurrent one that must agree with it. The proofs are about
that agreement, and about what every step of a protocol keeps.

`dafny verify dfyconfig.toml` checks the whole project. There is one file per component, named after it:

| file | what it models |
|---|---|
| `RWLock.dfy` | the writer-priority reader-writer lock: one transition per semaphore operation or counter update |
| `BlockingQueue.dfy` | the bounded queue with two conditions and single notify: one transition per stretch under the lock |
| `EventLogger.dfy` | the group-commit logger: appenders, the flusher, close, and a sink with an fsync watermark |
| `ConcurrentCrawler.dfy`, `WebCrawler.dfy` | the thread-pool and queue crawlers as steps; the stack crawler as a loop |
| `Ledger.dfy` | transfers with two ordered locks, with loads and stores as separate steps |
| `Hangman.dfy` | the exact minimax for the hangman dictionary game, its memo table, two strategies, the simulator |
| `DisjointForest.dfy`, `UnionFind.dfy`, `ValidTree.dfy`, `Islands.dfy` | union-find: the theory, path compression and rank, the two clients |
| `IdAllocator.dfy`, `ShardedAllocator.dfy` | the segment-tree id allocator in its array, and its shards |
| `SnapshotSet.dfy` | the set with garbage-collected version histories and snapshot handles |
| `LRU.dfy` | the doubly linked LRU list with sentinels, and the tier with times to live |
| `Permissions.dfy` | inherited folder permissions: the walk, and the cache with subtree invalidation |
| `BytePattern.dfy` | naive search, rolling-hash search, and search over a stream read in chunks |
| `TokenBucket.dfy` | the synchronous and the locked token bucket |
| `KVStore.dfy` | the versioned store with a lazily cleaned heap of deadlines |
| `LeasedQueue.dfy` | the job queue with leases and bounded retries |
| `HitCounter.dfy` | hits in the last 300 seconds: deque, circular array, shards |
| `WordFeedback.dfy` | feedback on repeated letters, and the candidate filter |
| `Dice.dfy`, `GameOfLife.dfy` | a dynamic program and its optimality; an in-place update and the simultaneous one |
| `Basics.dfy`, `Counting.dfy` | helpers: what several components share; counting and adding over finite maps |

## How things are modelled

- A protocol is a state value, a step relation and the runs it generates: every interleaving, any number of threads. The
  theorems are about every state of every run. Calls are paired (a reader that enters leaves) and not reentrant, as the
  code assumes.
- Code that updates fields or arrays in place is a class or a method with loops, proved against functions and predicates
  on values; the lemmas about those functions carry what the component promises.
- A clock is a parameter that never decreases. Floats are exact reals. Ledger amounts are integers, in units fine enough
  for every `Decimal` in play. Fetching and parsing a page is a function from a URL to its links.
- Python exceptions are results (`KeyError`, `ValueError`, `None` from a released snapshot).
- A call ended by an exception that nothing undoes leaves its thread standing where it failed; that thread's later calls
  are those of another thread of the model.
- Other threads get in between the steps of a method that is not one lock-protected block as extra arguments: the
  blocks, calls or hits that come in before each of its steps.
- Where code and documentation disagree, the model follows the code:
  the snapshot set's documentation lets several snapshots pin one version, but the code moves to a new version at every
  snapshot, so each version is pinned once (the model's count of pins would allow more);
  the token bucket's documentation calls the timed wait the least time in which the waiter could succeed, which it is
  exactly when no fraction of a token is on its way (`TokenBucket.TimeoutIsLeastIff`), and otherwise too long by less
  than the time of one token (`TokenBucket.TimeoutOvershootsByLessThanAToken`).
- Behaviour worth knowing, each with its exact condition: the logger's `append` can return if and only if it is called
  before the flusher has exited (`EventLogger.AppendCanReturnIff`, `EventLogger.AppendAfterCloseHangs`); the lock can
  get stuck if and only if an acquire that is not undone was interrupted (`RWLock.StuckIffFailed`); a release frees the
  id it names if and only if that is in the range (`ShardedAllocator.LandsOnItselfIff`); a permission walk ends if and
  only if it meets a grant or leads into no cycle (`Permissions.WalkEndsIff`), and the invalidation of a subtree if and
  only if its root is on no cycle (`Permissions.SweepEndsIff`). A time to live of zero in the key-value store means no
  expiry (`KVStore.ExpiryOf`).
- Main results: `RWLock.MutualExclusion`, `RWLock.NeverStuck`, `RWLock.StuckIffFailed`, `RWLock.WriterPriority`,
  `RWLock.CallGoesThrough`; `Hangman.OptimalGame`, `Hangman.SolverMatchesPlay`; `UnionFind.ChainsAreShort` with the
  class contracts; `Islands.NumIslands`, `ValidTree.IsTree`; `ShardedAllocator.NeverIssuedTwice`;
  `BlockingQueue.NoLostWakeup`, `BlockingQueue.EnqueuePutsItsItem`, `BlockingQueue.DequeueGetsTheFirst`,
  `BlockingQueue.StuckOnlyRightly`; `ConcurrentCrawler.ReturnsTheCrawl`, `ConcurrentCrawler.Terminates`;
  `Ledger.MoneyIsConserved`, `Ledger.TransferIsAtomic`, `Ledger.NeverStuck`, `Ledger.TransferGoesThrough`;
  `EventLogger.DurablePrefix`, `EventLogger.ReturnedIsDurable`, `EventLogger.AppendCanReturnIff`,
  `EventLogger.ClosedIsDrained`; `BytePattern.SearchStream`; `LRU.HoldsTheMostRecent`, `LRU.ReadsLastWritten`;
  `TokenBucket.GrantsInAWindow`, `TokenBucket.TightBoundIff`, `TokenBucket.SuccessTakesOnlyN`;
  `Permissions.SweepEndsIff` with the class contracts; `LeasedQueue.ClaimsAreALeaseApart`;
  `WordFeedback.FeedbackIsUnique`; `Dice.Solve`.

## Model

| member | source | states |
|---|---|---|
| RWLock.StepInv | Algorithms/probe1/rwlock_semaphores/src/rwlock_semaphores/rwlock.py:225-275 | every semaphore operation, counter update and interrupted acquire, of readers and writers, keeps both switches' bookkeeping: locks binary, counters equal to the threads in their counted regions, the shared semaphore held by the members exactly from the first one's acquire to the last one's release |
| RWLock.RunInv | Algorithms/probe1/rwlock_semaphores/src/rwlock_semaphores/rwlock.py:217-275 | so does every state of every run, for any number of threads |
| RWLock.MutualExclusion | Algorithms/probe1/rwlock_semaphores/src/rwlock_semaphores/rwlock.py:217-275 | in every state of every run a writer inside excludes readers and other writers, every semaphore is 0 or 1, and both counters equal the counted threads, whatever acquires are interrupted |
| RWLock.WriterExcludes | Algorithms/probe1/rwlock_semaphores/src/rwlock_semaphores/rwlock.py:235-245 | two threads cannot be inside together when one is a writer |
| RWLock.NeverStuck | Algorithms/probe1/rwlock_semaphores/src/rwlock_semaphores/rwlock.py:225-275 | in a reachable state with a thread in a call or inside, and no call that failed by an exception nothing undoes, some thread's next operation is possible |
| RWLock.GateHolderMoves | Algorithms/probe1/rwlock_semaphores/src/rwlock_semaphores/rwlock.py:260-275 | whoever holds the reader gate leads to a thread that can move |
| RWLock.ResourceHolderMoves | Algorithms/probe1/rwlock_semaphores/src/rwlock_semaphores/rwlock.py:252-270 | whoever holds resource, possibly not the thread that took it, leads to a thread that can move |
| RWLock.ClosedGateStep | Algorithms/probe1/rwlock_semaphores/src/rwlock_semaphores/rwlock.py:227-264 | no step lets a reader in while the writers hold the gate |
| RWLock.WriterPriority | Algorithms/probe1/rwlock_semaphores/src/rwlock_semaphores/rwlock.py:260-275 | from any point where the writers hold the gate until the last of them gives it back, the set of readers inside only shrinks |
| RWLock.Quiescent | Algorithms/probe1/rwlock_semaphores/src/rwlock_semaphores/rwlock.py:217-275 | when all calls have ended the lock is as it was built if and only if none of them failed; an interrupted acquire of acquire_read does not count, being undone |
| RWLock.StuckIffFailed | Algorithms/probe1/rwlock_semaphores/src/rwlock_semaphores/rwlock.py:252-275 | from a moment at which all calls have ended, some further run with nothing interrupted gets stuck if and only if a call had failed: an acquire interrupted for the gate, for resource by a writer, or for a lock in a release |
| RWLock.CallGoesThrough | Algorithms/probe1/rwlock_semaphores/src/rwlock_semaphores/rwlock.py:225-275 | with every other thread outside or inside reading, a read call gets inside beside them and a leaving reader leaves them inside; with everybody outside a write call gets inside, and a writer leaves: in each case a run with nothing interrupted ends with that thread moved and no other |
| RWLock.OneFewerAhead | Algorithms/probe1/rwlock_semaphores/src/rwlock_semaphores/rwlock.py:225-275 | in any state, every operation of a method brings it nearer to its end |
| RWLock.KeepsToItsSide | Algorithms/probe1/rwlock_semaphores/src/rwlock_semaphores/rwlock.py:225-275 | in any run, from its call until it is out again, a thread that came to read is at no operation of a writer, and one that came to write at none of a reader |
| BlockingQueue.StepInv | Algorithms/probe1/producer_consumer_service/src/producer_consumer_service/producer_consumer_service.py:103-116 | put, get, spurious wakes and calls all keep the wakeup accounting, the bound and the order |
| BlockingQueue.NoLostWakeup | Algorithms/probe1/producer_consumer_service/src/producer_consumer_service/producer_consumer_service.py:103-116 | while some consumer sleeps un-notified the items are at most the woken consumers, and dually free slots and producers |
| BlockingQueue.BoundedFifo | Algorithms/probe1/producer_consumer_service/src/producer_consumer_service/producer_consumer_service.py:96-120 | the size never passes the capacity, and what was ever enqueued is what was dequeued followed by the contents |
| BlockingQueue.EnqueuePutsItsItem | Algorithms/probe1/producer_consumer_service/src/producer_consumer_service/producer_consumer_service.py:103-108 | however long it waits and whatever the others do, a call of enqueue appends its own item in the step that ends it |
| BlockingQueue.DequeueGetsTheFirst | Algorithms/probe1/producer_consumer_service/src/producer_consumer_service/producer_consumer_service.py:110-116 | a call of dequeue returns the first item that had entered and not left, in the step that ends it |
| BlockingQueue.ItemsMoveByCalls | Algorithms/probe1/producer_consumer_service/src/producer_consumer_service/producer_consumer_service.py:103-116 | nothing enters or leaves but by a step that ends a call |
| BlockingQueue.CallsAreOpen | Algorithms/probe1/producer_consumer_service/src/producer_consumer_service/producer_consumer_service.py:103-116 | whoever is outside can put any item, or get |
| BlockingQueue.RunnableSteps | Algorithms/probe1/producer_consumer_service/src/producer_consumer_service/producer_consumer_service.py:103-116 | a thread that is awake has a step, which ends its call exactly when there is room, or an item |
| BlockingQueue.StuckOnlyRightly | Algorithms/probe1/producer_consumer_service/src/producer_consumer_service/producer_consumer_service.py:103-116 | with capacity at least 1, if nobody can run then all waiting threads are consumers of an empty queue or producers of a full one |
| EventLogger.StepInv | Algorithms/probe1/event_logger/src/event_logger/event_logger.py:265-302 | every step of an appender, the flusher or close keeps the sequence numbers, the watermark and the wait conditions consistent |
| EventLogger.DurablePrefix | Algorithms/probe1/event_logger/src/event_logger/event_logger.py:254-296 | the durable records are the first durable_seq events in sequence order, next_seq is durable_seq plus the buffer, and there are no more fsyncs than events |
| EventLogger.ReturnedIsDurable | Algorithms/probe1/event_logger/src/event_logger/event_logger.py:265-273 | an append takes the next number for its event, and at every later state it still waits or that event is durable at that number |
| EventLogger.DurableForever | Algorithms/probe1/event_logger/src/event_logger/event_logger.py:79-87 | what is durable stays durable, in order |
| EventLogger.ExitsDrained | Algorithms/probe1/event_logger/src/event_logger/event_logger.py:275-284 | the flusher exits only when closed with an empty buffer and everything durable |
| EventLogger.FlushTakesAll | Algorithms/probe1/event_logger/src/event_logger/event_logger.py:284-296 | a flush makes everything appended so far durable with one fsync and wakes every sleeper |
| EventLogger.ClosedIsDrained | Algorithms/probe1/event_logger/src/event_logger/event_logger.py:298-302 | once close has returned, at however later a state, the flusher has left, and everything appended at any moment before it left is durable |
| EventLogger.CloseCanReturn | Algorithms/probe1/event_logger/src/event_logger/event_logger.py:275-302 | from any reachable state with a close waiting, some continuation returns from it |
| EventLogger.CallsAreOpen | Algorithms/probe1/event_logger/src/event_logger/event_logger.py:265-302 | whoever is outside can append any event, or close |
| EventLogger.CanStepMeans | Algorithms/probe1/event_logger/src/event_logger/event_logger.py:265-302 | when the wait conditions, and the flusher, let somebody go on |
| EventLogger.StuckExactlyAfterExit | Algorithms/probe1/event_logger/src/event_logger/event_logger.py:265-302 | what a stuck state with a call in progress is: the flusher has exited and every caller waits for an event appended after that |
| EventLogger.EarlyAppendIsServed | Algorithms/probe1/event_logger/src/event_logger/event_logger.py:265-296 | an append called before the flusher has exited never waits with nobody able to step, up to its return |
| EventLogger.LateAppendNeverReturns | Algorithms/probe1/event_logger/src/event_logger/event_logger.py:265-284 | an append called after the flusher has exited is over at no later state of any run |
| EventLogger.AppendCanReturnIff | Algorithms/probe1/event_logger/src/event_logger/event_logger.py:265-296 | an append can return in some continuation of the run if and only if the flusher had not exited when it was called |
| EventLogger.AppendAfterCloseHangs | Algorithms/probe1/event_logger/src/event_logger/event_logger.py:265-302 | a concrete run that ends so |
| Ledger.StepInv | preparation/probe10/src/probe10/main.py:15-30 | each lock, load, store and unlock step keeps the lock ownership and what each thread carries consistent |
| Ledger.MoneyIsConserved | preparation/probe10/src/probe10/main.py:25-29 | balances plus amounts debited and not yet credited never change in total; with nothing in flight the balances alone do not; balances that start nonnegative stay so |
| Ledger.TransferIsAtomic | preparation/probe10/src/probe10/main.py:22-29 | while a transfer that passed its check holds both locks, the two balances go from what they were at the check through its own debit and credit and nothing else |
| Ledger.NeverStuck | preparation/probe10/src/probe10/main.py:22-25 | taking locks by ascending id, every reachable state with a pending transfer has a thread that can step |
| Ledger.WaitsOnlyForItsAccounts | preparation/probe10/src/probe10/main.py:22-24 | a transfer waits for nothing but one of its own two accounts, held by another transfer |
| Ledger.StartsIff | preparation/probe10/src/probe10/main.py:15-22 | in any state a thread outside can begin a transfer exactly when it names two different known accounts and a positive amount |
| Ledger.TransferCanStart | preparation/probe10/src/probe10/main.py:15-22 | so any transfer between two of the opening accounts can begin at any time of any run |
| Ledger.TransferGoesThrough | preparation/probe10/src/probe10/main.py:15-30 | with every thread outside, a transfer runs to its end: the amount is moved and no other balance touched, or nothing when the money is short, and every lock is free |
| WebCrawler.Crawl | Algorithms/probe1/web_crawler/src/web_crawler/web_crawler.py:212-230 | the stack loop returns exactly the pages reachable by same-host links, and fetches each of them once |
| WebCrawler.ClosedHoldsReachable | Algorithms/probe1/web_crawler/src/web_crawler/web_crawler.py:212-230 | a set closed under same-host links holds every reachable page |
| ConcurrentCrawler.StepInv | Algorithms/probe1/web_crawler/src/web_crawler/web_crawler.py:341-373 | every worker or main-thread step, of either tier, keeps the place of each seen page and the count of outstanding tasks |
| ConcurrentCrawler.Drained | Algorithms/probe1/web_crawler/src/web_crawler/web_crawler.py:850-889 | nothing queued and nobody busy means all links have been followed |
| ConcurrentCrawler.ReturnsTheCrawl | Algorithms/probe1/web_crawler/src/web_crawler/web_crawler.py:341-373 | when the outstanding count is zero, or main has returned, the seen set is the sequential crawler's result and each page was fetched once |
| ConcurrentCrawler.FetchedOnce | Algorithms/probe1/web_crawler/src/web_crawler/web_crawler.py:850-889 | at no point of any run has a page been fetched twice or from outside the reachable pages |
| ConcurrentCrawler.NeverStuck | Algorithms/probe1/web_crawler/src/web_crawler/web_crawler.py:850-889 | until the main thread returns, some thread can step |
| ConcurrentCrawler.WorkersNeverWait | Algorithms/probe1/web_crawler/src/web_crawler/web_crawler.py:850-889 | whatever the other workers do, one on a page has a step, and so has a free one while a page is queued |
| ConcurrentCrawler.Terminates | Algorithms/probe1/web_crawler/src/web_crawler/web_crawler.py:341-373 | every run on a finite link graph, cyclic or not, is no longer than the work there is at its start |
| Hangman.Sig | Algorithms/probe1/hangman/src/hangman/hangman.py:62-68 | the positions of the letter in the word, ascending |
| Hangman.Partition | Algorithms/probe1/hangman/src/hangman/hangman.py:71-82 | the loop groups the words exactly by signature |
| Hangman.RevealSlots | Algorithms/probe1/hangman/src/hangman/hangman.py:85-90 | the pattern with the letter at the signature's slots and the rest as before |
| Hangman.Progress | Algorithms/probe1/hangman/src/hangman/hangman.py:175-192 | every announcement leaves a smaller game: fewer slots unsettled, or as many and fewer letters present; this is what ends the recursion, on any pattern of the right length |
| Hangman.CandidatesAre | Algorithms/probe1/hangman/src/hangman/hangman.py:93-104 | the candidate letters are exactly the letters of remaining words that the pattern does not show, wherever they stand |
| Hangman.CandidatesShrink | Algorithms/probe1/hangman/src/hangman/hangman.py:93-104 | from a consistent pattern the candidate letters strictly shrink with every announcement |
| Hangman.HiddenConsistent | Algorithms/probe1/hangman/src/hangman/hangman.py:153-158 | the all-hidden pattern is consistent with any words without the hidden mark |
| Hangman.ConsistentAfter | Algorithms/probe1/hangman/src/hangman/hangman.py:71-104 | announcements keep it so: shown slots match every remaining word and every occurrence of a shown letter is shown |
| Hangman.AlwaysALetter | Algorithms/probe1/hangman/src/hangman/hangman.py:93-104 | two or more words and a consistent pattern always leave a letter to guess |
| Hangman.BestGuessIsOptimal | Algorithms/probe1/hangman/src/hangman/hangman.py:160-173 | the brute-force strategy names a candidate letter whose worst case is the solver's value |
| Hangman.GreedyIsProper | Algorithms/probe1/hangman/src/hangman/hangman.py:278-295 | the greedy strategy always names a candidate letter |
| Hangman.GreedyLeavesLeast | Algorithms/probe1/hangman/src/hangman/hangman.py:278-295 | the greedy strategy names the hidden letter whose largest group is smallest, the first in the alphabet among equals, and none only with one word or no letter left |
| Hangman.BestGuessCostsLeast | Algorithms/probe1/hangman/src/hangman/hangman.py:160-173 | the exact strategy likewise, by the chooser's best reply |
| Hangman.LargestGroup | Algorithms/probe1/hangman/src/hangman/hangman.py:290-292 | the loop over the groups finds the most words any answer leaves |
| Hangman.GreedyLetter | Algorithms/probe1/hangman/src/hangman/hangman.py:278-295 | best_guess of the greedy guesser |
| Hangman.OptimalAtMost | Algorithms/probe1/hangman/src/hangman/hangman.py:175-192 | an optimal strategy never loses more than the solver's value, whatever the secret |
| Hangman.SomeSecretAtLeast | Algorithms/probe1/hangman/src/hangman/hangman.py:175-192 | against any strategy that names hidden letters of words left some secret costs at least the solver's value |
| Hangman.SolverMatchesPlay | Algorithms/probe1/hangman/src/hangman/hangman.py:297-328 | the worst played game of any strategy that names hidden letters of words left is at least the solver's value, and exactly that for an optimal strategy |
| Hangman.SecretIsFound | Algorithms/probe1/hangman/src/hangman/hangman.py:297-328 | play from a consistent pattern ends with the secret alone |
| Hangman.PlayCountsMisses | Algorithms/probe1/hangman/src/hangman/hangman.py:297-328 | what a played game counts is the number of letters named that the secret does not have |
| Hangman.OptimalGame | Algorithms/probe1/hangman/src/hangman/hangman.py:153-192 | from the hidden pattern: the best strategy's worst game is min_wrong_guesses, the greedy one's is no better, and both find every secret |
| Hangman.PlayGame | Algorithms/probe1/hangman/src/hangman/hangman.py:297-328 | the simulator's loop counts the wrong guesses of the play function |
| Hangman.MemoizedHangman.SolveMemo | Algorithms/probe1/hangman/src/hangman/hangman.py:227-234 | for every state and cache history the memoized solver returns the brute-force value and only adds to the memo |
| Hangman.MemoizedHangman.WorstCase | Algorithms/probe1/hangman/src/hangman/hangman.py:183-192 | the loop over announcements returns the chooser's best reply |
| Hangman.MemoizedHangman.MinWrong | Algorithms/probe1/hangman/src/hangman/hangman.py:153-158 | min_wrong_guesses through the memo |
| Hangman.MemoizedHangman.BestLetter | Algorithms/probe1/hangman/src/hangman/hangman.py:160-173 | best_guess through the memo, None when no letter is left |
| DisjointForest.SameRootIffLinked | LeetCode/disjoint_set.py:70-71 | two nodes have one root if and only if the united pairs link them |
| DisjointForest.FindRoot | LeetCode/disjoint_set.py:8-11 | the uncompressed loop finds the root |
| DisjointForest.LinkRepresents | LeetCode/disjoint_set.py:13-17 | hanging one root under the other represents the old pairs and the new one |
| DisjointForest.AddLinked | LeetCode/disjoint_set.py:13-17 | a pair already linked adds nothing to the closure |
| DisjointForest.ClassesAreRoots | LeetCode/mid/num_islands.py:29-30 | there are as many classes of the closure as roots |
| UnionFind.ChainsAreShort | LeetCode/disjoint_set.py:57-68 | two to the length of a node's parent chain is at most the size of its set |
| UnionFind.CompressBalanced | LeetCode/disjoint_set.py:50-55 | compressing a node changes no root and keeps ranks and sizes in balance |
| UnionFind.LinkBalanced | LeetCode/disjoint_set.py:61-68 | union by rank keeps them so |
| UnionFind.UnionFindOpt.FindRoot | LeetCode/disjoint_set.py:50-55 | the recursive find returns the root, points the node at it, and changes the root of no node |
| UnionFind.UnionFindOpt.Union | LeetCode/disjoint_set.py:58-68 | the pair joins the united pairs, whose closure the forest then represents |
| UnionFind.UnionFindOpt.Connected | LeetCode/disjoint_set.py:70-71 | true exactly when the closure of the united pairs links the two |
| ValidTree.UnionFind.Union | LeetCode/mid/valid_tree.py:5-11 | true exactly when the two were not yet linked, and then there is one tree fewer |
| ValidTree.CycleLeavesTwoTrees | LeetCode/mid/valid_tree.py:27-29 | after an edge that merged nothing the remaining edges cannot join all vertices |
| ValidTree.IsTree | LeetCode/mid/valid_tree.py:21-31 | true if and only if there are n - 1 edges and they connect all vertices; equally, n - 1 edges and no cycle |
| Islands.UnionFind.Union | LeetCode/mid/num_islands.py:22-27 | count stays the number of roots |
| Islands.NextCell | LeetCode/mid/num_islands.py:42-52 | the four tests at a cell are its borders in the whole grid |
| Islands.NumIslands | LeetCode/mid/num_islands.py:35-54 | the number of classes of the closure of 4-adjacency on the land cells; 0 for an empty grid |
| IdAllocator.PlacedChildren | Algorithms/probe1/id_allocator/src/id_allocator/id_allocator.py:393-417 | the children's indices stay below 4 * max_id, for sizes that are no powers of two too |
| IdAllocator.Refreshed | Algorithms/probe1/id_allocator/src/id_allocator/id_allocator.py:403-417 | the conjunction of the children is 1 exactly when the node's whole range is allocated |
| IdAllocator.SummaryFrame | Algorithms/probe1/id_allocator/src/id_allocator/id_allocator.py:393-417 | a subtree's summaries depend on its own cells and its own ids only |
| IdAllocator.SegmentTreeAllocator.ClaimLowest | Algorithms/probe1/id_allocator/src/id_allocator/id_allocator.py:405-417 | the descent claims the lowest free id of a range that is not full and keeps every summary |
| IdAllocator.SegmentTreeAllocator.Free | Algorithms/probe1/id_allocator/src/id_allocator/id_allocator.py:393-403 | the descent frees the target and keeps every summary |
| IdAllocator.SegmentTreeAllocator.Allocate | Algorithms/probe1/id_allocator/src/id_allocator/id_allocator.py:419-423 | the lowest free id, or None if and only if all are out |
| IdAllocator.SegmentTreeAllocator.Release | Algorithms/probe1/id_allocator/src/id_allocator/id_allocator.py:425-427 | the id is free again; an id out of range frees the nearest end, as the descent does |
| ShardedAllocator.IdsAndSlots | Algorithms/probe1/id_allocator/src/id_allocator/id_allocator.py:529-546 | ids below max_id and slots of shards correspond one to one |
| ShardedAllocator.AtMostTen | Algorithms/probe1/id_allocator/src/id_allocator/id_allocator.py:519-527 | the constructor's loop makes at most ten shards |
| ShardedAllocator.TakeLowest | Algorithms/probe1/id_allocator/src/id_allocator/id_allocator.py:529-537 | a shard's lowest free slot is the lowest id of that shard that is not out, and taking it takes that id alone |
| ShardedAllocator.NeverIssuedTwice | Algorithms/probe1/id_allocator/src/id_allocator/id_allocator.py:529-546 | in any sequence of shard steps an id issued twice was freed in between, by a release that landed on it |
| ShardedAllocator.IssuedAgainOnlyIfReleased | Algorithms/probe1/id_allocator/src/id_allocator/id_allocator.py:529-546 | when the releases in between are of ids in the range, it was released by name |
| ShardedAllocator.LandsOnItselfIff | Algorithms/probe1/id_allocator/src/id_allocator/id_allocator.py:539-546 | a release frees the id it names if and only if that is in the range; any other integer raises or frees some id of the range |
| ShardedAllocator.StrayReleaseIssuesTwice | Algorithms/probe1/id_allocator/src/id_allocator/id_allocator.py:539-546 | with 95 ids a release of 97 frees 94, which is then issued to a second holder |
| ShardedAllocator.EachWasOut | Algorithms/probe1/id_allocator/src/id_allocator/id_allocator.py:529-537 | a thread that found each shard full, at different moments, has seen every id out at some moment |
| ShardedAllocator.ThreadSafeAllocator.constructor | Algorithms/probe1/id_allocator/src/id_allocator/id_allocator.py:519-527 | shards covering exactly 0 to max_id - 1, all free |
| ShardedAllocator.ThreadSafeAllocator.TryShard | Algorithms/probe1/id_allocator/src/id_allocator/id_allocator.py:529-537 | one atomic shard step: its lowest id, new to the holders, or nothing when the shard is full |
| ShardedAllocator.ThreadSafeAllocator.Release | Algorithms/probe1/id_allocator/src/id_allocator/id_allocator.py:539-546 | for any integer: the id it lands on is free again and no other changes, or an error and no change, as Python indexes the shards |
| ShardedAllocator.ThreadSafeAllocator.Allocate | Algorithms/probe1/id_allocator/src/id_allocator/id_allocator.py:529-537 | with other threads' blocks before each try: an id returned was free at that moment, None means every id was out at some moment of the call; undisturbed, None if and only if every id is out |
| SnapshotSet.PutReads | Algorithms/probe1/snapshot_set/src/snapshot_set/snapshot_set.py:706-711 | a write is seen at the current version and changes no earlier reading |
| SnapshotSet.PruneReads | Algorithms/probe1/snapshot_set/src/snapshot_set/snapshot_set.py:760-781 | pruning keeps every reading at or after the horizon |
| SnapshotSet.CollectedReads | Algorithms/probe1/snapshot_set/src/snapshot_set/snapshot_set.py:760-791 | so does dropping whole histories |
| SnapshotSet.FullyCollected | Algorithms/probe1/snapshot_set/src/snapshot_set/snapshot_set.py:760-797 | collected at the current version the histories hold one record per live element |
| SnapshotSet.WriteKeeps | Algorithms/probe1/snapshot_set/src/snapshot_set/snapshot_set.py:706-723 | a write leaves every pinned version reading its frozen set |
| SnapshotSet.CollectKeeps | Algorithms/probe1/snapshot_set/src/snapshot_set/snapshot_set.py:742-781 | a collection does too, and with no pins leaves one record per live element |
| SnapshotSet.GCSnapshotSet.Add | Algorithms/probe1/snapshot_set/src/snapshot_set/snapshot_set.py:713-717 | the live set gains the element; every open snapshot still reads its frozen set |
| SnapshotSet.GCSnapshotSet.Remove | Algorithms/probe1/snapshot_set/src/snapshot_set/snapshot_set.py:719-723 | the live set loses it, likewise |
| SnapshotSet.GCSnapshotSet.Snapshot | Algorithms/probe1/snapshot_set/src/snapshot_set/snapshot_set.py:734-740 | a handle of its own version, frozen at the live set of this moment |
| SnapshotSet.GCSnapshotSet.Horizon | Algorithms/probe1/snapshot_set/src/snapshot_set/snapshot_set.py:753-758 | the least pinned version, or the current one |
| SnapshotSet.GCSnapshotSet.Prune | Algorithms/probe1/snapshot_set/src/snapshot_set/snapshot_set.py:760-781 | the in-place loops compute the collected histories |
| SnapshotSet.GCSnapshotSet.Collect | Algorithms/probe1/snapshot_set/src/snapshot_set/snapshot_set.py:760-781 | every open snapshot still reads its frozen set; with no pins the size is the number of live elements |
| SnapshotSet.GCSnapshotSet.ReleaseVersion | Algorithms/probe1/snapshot_set/src/snapshot_set/snapshot_set.py:742-751 | one pin fewer, and a collection with the last pin of a version |
| SnapshotSet.GCSnapshotSet.LiveHistorySize | Algorithms/probe1/snapshot_set/src/snapshot_set/snapshot_set.py:796-805 | the loop counts the retained records |
| SnapshotSet.GCSnapshot.Contains | Algorithms/probe1/snapshot_set/src/snapshot_set/snapshot_set.py:548-550 | membership in the set frozen at creation, or an error once released |
| SnapshotSet.GCSnapshot.Items | Algorithms/probe1/snapshot_set/src/snapshot_set/snapshot_set.py:552-554 | exactly the set frozen at creation, or an error once released |
| SnapshotSet.GCSnapshot.Release | Algorithms/probe1/snapshot_set/src/snapshot_set/snapshot_set.py:564-570 | the pin is given back once; a second release changes nothing |
| LRU.HoldsTheMostRecent | Algorithms/probe1/lru/src/lru/lru.py:162-182 | after any run of gets and puts the cache holds the capacity most recently used keys, most recent first |
| LRU.ReadsLastWritten | Algorithms/probe1/lru/src/lru/lru.py:162-182 | after any run of gets and puts a key reads as it was last written if it is among the capacity most recently used, and otherwise not at all |
| LRU.TouchReads | Algorithms/probe1/lru/src/lru/lru.py:162-167 | a hit changes the value of no key |
| LRU.StoreReads | Algorithms/probe1/lru/src/lru/lru.py:169-182 | a put is read back, and every other key reads as before but the one a new key evicts from a full cache |
| LRU.SimpleLRU.Unlink | Algorithms/probe1/lru/src/lru/lru.py:146-149 | the list without the node, still linked both ways between the sentinels |
| LRU.SimpleLRU.AddToFront | Algorithms/probe1/lru/src/lru/lru.py:151-156 | the node in front of the list, likewise |
| LRU.SimpleLRU.MoveToFront | Algorithms/probe1/lru/src/lru/lru.py:158-160 | the node moved to the front, likewise |
| LRU.SimpleLRU.Get | Algorithms/probe1/lru/src/lru/lru.py:162-167 | the value and move-to-front, or None and no change |
| LRU.SimpleLRU.Put | Algorithms/probe1/lru/src/lru/lru.py:169-182 | the entry in front and the last one dropped when there is one too many |
| LRU.SimpleLRU.Delete | Algorithms/probe1/lru/src/lru/lru.py:299-302 | the entry is gone from list and dictionary |
| LRU.TimeToLive | Algorithms/probe1/lru/src/lru/lru.py:304-317 | a value put with a time to live is returned exactly at readings before that is over, and one without always, as long as it is held; the put changes no other reading but that of the key evicted |
| LRU.TTLLRU.Put | Algorithms/probe1/lru/src/lru/lru.py:304-307 | a put of the value with its deadline |
| LRU.TTLLRU.Get | Algorithms/probe1/lru/src/lru/lru.py:309-317 | an expired value is never returned and is deleted on the way; others as in the plain cache |
| Permissions.YesIffGrantAbove | Algorithms/probe1/permissions_fs/src/permissions_fs/fsperm.py:174-180 | on any parent map the walk answers yes exactly when the folder or an ancestor was granted |
| Permissions.NoIffUngrantedRoot | Algorithms/probe1/permissions_fs/src/permissions_fs/fsperm.py:174-180 | it answers no exactly when nothing above was granted and the way up ends at a root of the map |
| Permissions.KeyErrorIffUnknownTop | Algorithms/probe1/permissions_fs/src/permissions_fs/fsperm.py:174-180 | and raises KeyError exactly when nothing above was granted and the way up ends at a folder the map lacks |
| Permissions.AnswerIsUnique | Algorithms/probe1/permissions_fs/src/permissions_fs/fsperm.py:174-180 | the walk has at most one answer |
| Permissions.WalkEndsIff | Algorithms/probe1/permissions_fs/src/permissions_fs/fsperm.py:174-180 | the walk ends if and only if a grant lies on it or it leads into no cycle |
| Permissions.AcyclicAnswers | Algorithms/probe1/permissions_fs/src/permissions_fs/fsperm.py:174-180 | when no folder is its own proper ancestor every folder has its answer |
| Permissions.ChangeFeltBelow | Algorithms/probe1/permissions_fs/src/permissions_fs/fsperm.py:334-342 | changing one grant changes answers below it only |
| Permissions.SimplePermissions.HasAccess | Algorithms/probe1/permissions_fs/src/permissions_fs/fsperm.py:174-180 | the walk's answer, KeyError on an unknown folder included, wherever the walk ends |
| Permissions.WalkUp | Algorithms/probe1/permissions_fs/src/permissions_fs/fsperm.py:346-355 | the loop computes the walk's answer and ends wherever the walk does |
| Permissions.SweptIsSubtree | Algorithms/probe1/permissions_fs/src/permissions_fs/fsperm.py:326-332 | with the queue empty the popped folders are exactly the subtree |
| Permissions.PopOne | Algorithms/probe1/permissions_fs/src/permissions_fs/fsperm.py:327-332 | each pop keeps the sweep: no folder is queued twice, and every child of a popped folder is popped or queued |
| Permissions.SweepEndsIff | Algorithms/probe1/permissions_fs/src/permissions_fs/fsperm.py:326-332 | the sweep of a subtree ends if and only if its root is on no cycle |
| Permissions.CachedPermissions.constructor | Algorithms/probe1/permissions_fs/src/permissions_fs/fsperm.py:317-324 | the child map is the parent map inverted, for any parent map |
| Permissions.CachedPermissions.InvalidateSubtree | Algorithms/probe1/permissions_fs/src/permissions_fs/fsperm.py:326-332 | clears the cached answers of the subtree and no others, and ends, for every folder that is on no cycle |
| Permissions.CachedPermissions.AddAccess | Algorithms/probe1/permissions_fs/src/permissions_fs/fsperm.py:334-337 | the grant is added and every cached answer is still the walk's |
| Permissions.CachedPermissions.RemoveAccess | Algorithms/probe1/permissions_fs/src/permissions_fs/fsperm.py:339-342 | the grant is dropped, likewise |
| Permissions.CachedPermissions.HasAccess | Algorithms/probe1/permissions_fs/src/permissions_fs/fsperm.py:344-355 | the plain tier's answer, from the cache or not, wherever the walk ends |
| BytePattern.Naive | Algorithms/probe1/byte_pattern/src/byte_pattern/byte_pattern.py:94-100 | all match positions, ascending; none for an empty needle |
| BytePattern.Roll | Algorithms/probe1/byte_pattern/src/byte_pattern/byte_pattern.py:153-175 | the constant-time update gives the polynomial hash modulo 2^61 - 1 of the next window |
| BytePattern.RabinKarp | Algorithms/probe1/byte_pattern/src/byte_pattern/byte_pattern.py:153-175 | the rolling-hash search returns the naive result on every input |
| BytePattern.SplitMatch | Algorithms/probe1/byte_pattern/src/byte_pattern/byte_pattern.py:233-257 | a match of the whole lies in what was seen or in the carried tail with the new chunk, at a shifted position |
| BytePattern.Carry | Algorithms/probe1/byte_pattern/src/byte_pattern/byte_pattern.py:233-257 | the matches of the whole are the earlier ones followed by the shifted new ones: none missed, none twice |
| BytePattern.SearchStream | Algorithms/probe1/byte_pattern/src/byte_pattern/byte_pattern.py:233-257 | for every division of the data into reads, the naive search of all the data before the first empty read |
| TokenBucket.RefillLeavesAFraction | Algorithms/probe1/token_bucket/src/token_bucket/token_bucket.py:208-224 | a refill credits what was earned and leaves uncredited less than one token |
| TokenBucket.RefillsCompose | Algorithms/probe1/token_bucket/src/token_bucket/token_bucket.py:208-224 | a refill on the way changes nothing about a later refill, the cap included |
| TokenBucket.SplitRefillsEarnTheSame | Algorithms/probe1/token_bucket/src/token_bucket/token_bucket.py:208-224 | any nondecreasing series of refills is its last one |
| TokenBucket.AttemptIffAffords | Algorithms/probe1/token_bucket/src/token_bucket/token_bucket.py:226-232 | an attempt succeeds if and only if n is within capacity and on hand or earned, said without rounding |
| TokenBucket.SuccessTakesOnlyN | Algorithms/probe1/token_bucket/src/token_bucket/token_bucket.py:226-232 | a success takes n and no more: the next demand is granted exactly when the bucket could pay both, the fraction being earned included |
| TokenBucket.FailureLeavesNoTrace | Algorithms/probe1/token_bucket/src/token_bucket/token_bucket.py:226-232 | after a failed attempt every later one is answered as if it had not been made |
| TokenBucket.OneTimedWaitSuffices | Algorithms/probe1/token_bucket/src/token_bucket/token_bucket.py:408-424 | a lone waiter for n within capacity succeeds at the end of one full timed wait |
| TokenBucket.TimeoutIsLeastIff | Algorithms/probe1/token_bucket/src/token_bucket/token_bucket.py:347-352 | the timed wait is the least in which the waiter could succeed if and only if the last refill leaves no fraction of a token on its way |
| TokenBucket.TimeoutCanBeTooLong | Algorithms/probe1/token_bucket/src/token_bucket/token_bucket.py:420-422 | an input on which a shorter wait would have done |
| TokenBucket.TimeoutOvershootsByLessThanAToken | Algorithms/probe1/token_bucket/src/token_bucket/token_bucket.py:420-422 | the timed wait ends less than one token's time after the first reading that would do |
| TokenBucket.GrantsFromTheStart | Algorithms/probe1/token_bucket/src/token_bucket/token_bucket.py:200-232 | tokens granted by time t are at most capacity + rate * (t - t0), for every sequence of calls |
| TokenBucket.GrantsFromWhatIsKept | Algorithms/probe1/token_bucket/src/token_bucket/token_bucket.py:208-232 | grants of a series of calls are at most what was on hand at its start, the gain kept from before, and the gain since |
| TokenBucket.GrantsInAWindow | Algorithms/probe1/token_bucket/src/token_bucket/token_bucket.py:389-424 | tokens granted by the calls from s to t are fewer than capacity + rate * (t - s) + 1, from any state |
| TokenBucket.TightBoundIff | Algorithms/probe1/token_bucket/src/token_bucket/token_bucket.py:208-224 | the bound without the extra token holds for all series of calls from s if and only if the bucket is not full at s or keeps no fraction |
| TokenBucket.WindowBoundNeedsTheExtraToken | Algorithms/probe1/token_bucket/src/token_bucket/token_bucket.py:208-224 | an input that passes the bound without the extra token |
| TokenBucket.ServedAtTheFirstTurn | Algorithms/probe1/token_bucket/src/token_bucket/token_bucket.py:408-424 | among other threads' calls, a blocking acquire returns at the first wake at which the bucket it finds affords n, and takes n of it |
| TokenBucket.LoneWaiterIsServedByTheStart | Algorithms/probe1/token_bucket/src/token_bucket/token_bucket.py:408-424 | with no other calls, what counts at each wake is the bucket as it was at the start |
| TokenBucket.WaitingIsARun | Algorithms/probe1/token_bucket/src/token_bucket/token_bucket.py:408-424 | a waiting acquire is a run of calls like any other, to which the bounds on grants apply |
| TokenBucket.SimpleTokenBucket.TryAcquire | Algorithms/probe1/token_bucket/src/token_bucket/token_bucket.py:226-232 | all of n or nothing, exactly when affordable |
| TokenBucket.ConcurrentTokenBucket.TryAcquire | Algorithms/probe1/token_bucket/src/token_bucket/token_bucket.py:398-406 | the same as one locked block |
| TokenBucket.ConcurrentTokenBucket.Acquire | Algorithms/probe1/token_bucket/src/token_bucket/token_bucket.py:408-424 | the loop, with any calls of other threads before each wake, leaves the bucket and returns at the turn that ServedAtTheFirstTurn describes |
| KVStore.PopAgrees | preparation/probe5/src/probe5/kv.py:40-53 | popping a due deadline removes an expired entry or, when the deadline is stale, nothing; no live entry goes |
| KVStore.SweptIsLive | preparation/probe5/src/probe5/kv.py:40-53 | with no due deadline left the index holds exactly what is live in a plain map that checks expiry |
| KVStore.PutAgrees | preparation/probe5/src/probe5/kv.py:55-74 | a put under a new version keeps the agreement, old deadlines of the key becoming stale |
| KVStore.LastChangeIsRead | preparation/probe5/src/probe5/kv.py:55-89 | after any puts and deletes a key reads as its last put left it up to the reading at which that put's time to live is over, and not from then on; for ever without one or with zero; a deleted one not at all |
| KVStore.NeverPutIsNone | preparation/probe5/src/probe5/kv.py:76-81 | a key never put reads as nothing |
| KVStore.KVStore.LazyDelete | preparation/probe5/src/probe5/kv.py:40-53 | the loop leaves exactly the live entries |
| KVStore.KVStore.Put | preparation/probe5/src/probe5/kv.py:55-74 | a key or value that is None, no string, or empty is an error and changes nothing; otherwise the plain map's put |
| KVStore.KVStore.Get | preparation/probe5/src/probe5/kv.py:76-81 | the plain map's expiry-checked lookup |
| KVStore.KVStore.Delete | preparation/probe5/src/probe5/kv.py:83-89 | true exactly when the key was live, and then it is gone |
| LeasedQueue.BoundedClaims | Algorithms/probe1/producer_consumer_service/src/producer_consumer_service/producer_consumer_service.py:303-327 | in any run a job is claimed at most max(1, max_attempts) times |
| LeasedQueue.ClaimsAreALeaseApart | Algorithms/probe1/producer_consumer_service/src/producer_consumer_service/producer_consumer_service.py:303-327 | two claims of one job with no fail of it between are at least lease_seconds apart |
| LeasedQueue.ReclaimedIff | Algorithms/probe1/producer_consumer_service/src/producer_consumer_service/producer_consumer_service.py:303-313 | from a claim, some run with a fail of the job claims it again within the lease if and only if it has attempts left and the lease is positive |
| LeasedQueue.FailedJobIsClaimedAtOnce | Algorithms/probe1/producer_consumer_service/src/producer_consumer_service/producer_consumer_service.py:311-313 | such a run: both claims at one instant |
| LeasedQueue.StepHolds | Algorithms/probe1/producer_consumer_service/src/producer_consumer_service/producer_consumer_service.py:212-220 | a claim stays with its worker until success, a fail, or the end of the lease |
| LeasedQueue.SweptComesBackIff | Algorithms/probe1/producer_consumer_service/src/producer_consumer_service/producer_consumer_service.py:303-327 | a sweep makes an overdue job pending, and it can be claimed again, if and only if it has attempts left; otherwise it has failed |
| LeasedQueue.ResultIsKept | Algorithms/probe1/producer_consumer_service/src/producer_consumer_service/producer_consumer_service.py:222-226 | a job keeps the result it was completed with until it is completed again, and counts as done until a fail of it |
| LeasedQueue.PayloadIsKept | Algorithms/probe1/producer_consumer_service/src/producer_consumer_service/producer_consumer_service.py:205-210 | a job keeps the payload it was submitted with |
| LeasedQueue.LeasedQueue.ClaimJob | Algorithms/probe1/producer_consumer_service/src/producer_consumer_service/producer_consumer_service.py:212-220 | the row of the first pending job, updated in place and shared with the caller, or null when none is pending |
| LeasedQueue.LeasedQueue.SweepStuckJobs | Algorithms/probe1/producer_consumer_service/src/producer_consumer_service/producer_consumer_service.py:315-327 | every overdue job is requeued or failed, no other is touched, and their number is returned |
| LeasedQueue.LeasedQueue.FailJob | Algorithms/probe1/producer_consumer_service/src/producer_consumer_service/producer_consumer_service.py:311-313 | the job is requeued or failed; an unknown id is an error |
| LeasedQueue.LeasedQueue.CompleteJob | Algorithms/probe1/producer_consumer_service/src/producer_consumer_service/producer_consumer_service.py:222-226 | the job succeeds with its result; an unknown id is an error |
| LeasedQueue.LeasedQueue.SubmitJob | Algorithms/probe1/producer_consumer_service/src/producer_consumer_service/producer_consumer_service.py:205-210 | a new pending job under the next id |
| HitCounter.SuffixCounts | Algorithms/probe1/hit_counter/src/hit_counter/hit_counter.py:130-134 | what is left in the deque is the hits of the window |
| HitCounter.DequeCounter.GetHits | Algorithms/probe1/hit_counter/src/hit_counter/hit_counter.py:130-134 | the number of hits ever made in (t - 300, t] |
| HitCounter.DequeCounter.Hit | Algorithms/probe1/hit_counter/src/hit_counter/hit_counter.py:127-128 | one more hit |
| HitCounter.OneSecondPerSlot | Algorithms/probe1/hit_counter/src/hit_counter/hit_counter.py:228-241 | each slot stands for exactly one second of the window |
| HitCounter.SlotContribution | Algorithms/probe1/hit_counter/src/hit_counter/hit_counter.py:236-241 | a slot adds the hits of that second, stale slots and slots never written included |
| HitCounter.TotalIsRecent | Algorithms/probe1/hit_counter/src/hit_counter/hit_counter.py:236-241 | the 300 slots together count the window |
| HitCounter.BucketCounter.Hit | Algorithms/probe1/hit_counter/src/hit_counter/hit_counter.py:228-234 | the slot counts the hit, overwriting an older second; it asks only that no later hit has fallen on the slot |
| HitCounter.WindowFitsSlot | Algorithms/probe1/hit_counter/src/hit_counter/hit_counter.py:228-234 | which is so for nondecreasing times, and for any order of times within one window |
| HitCounter.BucketCounter.ReadSlot | Algorithms/probe1/hit_counter/src/hit_counter/hit_counter.py:377-383 | one slot, read under its lock, counts the hits of its second of the window |
| HitCounter.BucketCounter.GetHits | Algorithms/probe1/hit_counter/src/hit_counter/hit_counter.py:236-241 | the number of hits ever made in (t - 300, t] |
| HitCounter.ShardsCountAll | Algorithms/probe1/hit_counter/src/hit_counter/hit_counter.py:527-536 | wherever each hit was sent, the shards' counts add up to the window's |
| HitCounter.DistributedCounter.Hit | Algorithms/probe1/hit_counter/src/hit_counter/hit_counter.py:527-530 | one more hit, on whichever shard |
| HitCounter.DistributedCounter.ReadShard | Algorithms/probe1/hit_counter/src/hit_counter/hit_counter.py:377-383 | with other hits before each slot is read: between the shard's count at the start and at the end |
| HitCounter.DistributedCounter.GetHits | Algorithms/probe1/hit_counter/src/hit_counter/hit_counter.py:532-536 | with hits of other threads before each slot is read: between the window's count at the start of the query and at its end; exactly it when none comes in |
| WordFeedback.Feedback | Algorithms/probe1/word_guessing_feedback/src/word_guessing_feedback/word_guessing_feedback.py:122-145 | matches are the equal positions; per letter, matched and existing together are the lesser of its counts in the two words; of the other copies the leftmost are credited |
| WordFeedback.FeedbackIsUnique | Algorithms/probe1/word_guessing_feedback/src/word_guessing_feedback/word_guessing_feedback.py:75-145 | those conditions leave exactly one answer |
| WordFeedback.Claim | Algorithms/probe1/word_guessing_feedback/src/word_guessing_feedback/word_guessing_feedback.py:136-141 | crediting a letter takes it from the secret's unmatched copies |
| WordFeedback.OrderOfCluesIsIrrelevant | Algorithms/probe1/word_guessing_feedback/src/word_guessing_feedback/word_guessing_feedback.py:257-264 | the same clues in any order, repeated or not, leave the same candidates |
| WordFeedback.CandidatesAreConsistent | Algorithms/probe1/word_guessing_feedback/src/word_guessing_feedback/word_guessing_feedback.py:257-264 | the candidates are the words every clue allows, so the true secret is never dropped |
| WordFeedback.CandidateFilter.Observe | Algorithms/probe1/word_guessing_feedback/src/word_guessing_feedback/word_guessing_feedback.py:260-261 | the candidates are filtered by one clue more |
| Dice.NextDie | CodeForces/CF_Round_1080_div3/C.py:15-27 | the best over the compatible faces before a die is the best there is |
| Dice.CheapestCompatible | CodeForces/CF_Round_1080_div3/C.py:19-25 | the inner loop finds it, never answering INF |
| Dice.Solve | CodeForces/CF_Round_1080_div3/C.py:7-29 | the number returned is reached by some row without equal or opposite neighbours, and no such row needs fewer changes |
| GameOfLife.DirectionsReachNeighbours | LeetCode/mid/game_of_life.py:9-18 | the eight directions reach each neighbour exactly once |
| GameOfLife.CountAround | LeetCode/mid/game_of_life.py:22-29 | on a partly overwritten board the loop counts the neighbours that were alive |
| GameOfLife.MarkAll | LeetCode/mid/game_of_life.py:20-34 | the marks tell both the old state and the next one |
| GameOfLife.Step | LeetCode/mid/game_of_life.py:5-43 | the board ends as the simultaneous update of what it was |

## Left out

- Interrupts of the reader-writer lock anywhere but in a blocked acquire.
- `ReaderPriorityRWLock`: the same first-in, last-out switch as the readers' side here, without the gate.
- Fairness and timing: the theorems say that some thread can step, not which one does or when.
- Reentrant or unpaired calls of the locks.
- `AsyncCrawler`, `PureAsyncCrawler` and `LevelCrawler`: the last is a loop over whole levels with the same result as the stack loop.
- Exceptions thrown by a page parser inside a crawler worker: the link function is total.
- `BatchedLogger` and `SimpleLogger`: one thread, no protocol.
- `SimpleSnapshotSet` as code: it is the set frozen at each snapshot, to which the collected histories are compared; `CoWSnapshotSet` is the same history without collection.
- `contains`, `items` and iteration of the live set, iterators and context managers of snapshots: direct reads of the same state.
- `Allocator` (freelist) and `BitmapAllocator`: the first is a set with a counter; the second updates a byte it does not store back.
- The random choice of the first shard in `allocate`: any order of the shards.
- `ThreadSafeLRU`: the plain cache with one lock around every call.
- LRU.TTLLRU.Put: the tier holds a cache instead of inheriting from it, with the value and its deadline as the stored value.
- The order in which several waiters on the token bucket are served: each is served by its own wakes.
- The asynchronous token bucket with reservations.
- KVStore.KVStore.LazyDelete: the heap is a set from which a deadline of least expiry is taken; the background sweep thread is a call of it at any time.
- The plain database queue apart from the methods that the leased one inherits.
- HitCounter.DistributedCounter.GetHits: hits that come in during a query lie in its window; one later than the query would overwrite a slot the query still counts. `ConcurrentCounter` is the circular array with a lock per slot, here its methods `Hit` and `ReadSlot`.
- WordFeedback.Feedback: words of equal length, as documented; the game's attempt counter is not modelled.
- Dice.Solve: rows shorter than the sentinel INF, which the code relies on too; reading the input is left out.
- Opening accounts while transfers run; a transfer the original rejects before its first lock (same account, amount not positive, unknown id) makes no step.
- EventLogger.DurablePrefix: sink writes and the fsync of one batch are one step of the flusher; a sink that fails is not modelled.
- Hangman.PlayGame: strategies are functions of the words and the pattern; the iteration order of Python sets is not modelled, ties being broken by letter as in the code.
- Permissions.CachedPermissions.AddAccess: requires the folder to be on no cycle, and HasAccess that the walk ends, because the original does not return otherwise; WalkEndsIff and SweepEndsIff say when that is.
- The remaining LeetCode and CodeForces files, the shopping cart, the URL shortener, circuit breakers and load balancers: short code whose properties would be easy, or whose result does not match its purpose.
