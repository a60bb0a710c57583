# Operating-systems course projects: a verified model

This project models three programs of the repository and proves what they are for:

* the page-replacement simulator of project 4, which runs FIFO, LRU and OPTIMUM over a reference string
  with a TLB of k frames and a hand-written doubly linked history list;
* the dining philosophers of project 2, threads that share chopsticks (semaphores) and a counter of rice;
* the inode file system of project 5, with its free-block bitmap, copyin and copyout, and dirty inode blocks
  that are saved when the program ends.

Sizes are parameters: k frames, N philosophers, any number of disk blocks up to the 4096 the bitmap holds.

## How it is built

Each program exists twice. Pure step functions say what one operation does to the state, and the theorems are
about every run of them. Classes with the source's own fields, arrays, pointers and loops are proved to do
exactly what the step functions say, so the theorems hold of the classes.
The modules named Steps say field by field, and apart from the step functions' own definitions, what an operation
changes and what it leaves alone.

| files | content |
|---|---|
| `Numbers` | bytes and two facts about products |
| `Paging`, `PagingSteps`, `PagingRuns` | one iteration of the simulator, and what it does row by row; what every run keeps; what one frame breaks |
| `Belady`, `LruOrder`, `FifoOrder`, `Competitive` | optimality, recency and inclusion, load order, competitiveness |
| `FifoAnomaly`, `CompetitiveLimits` | when more frames help FIFO; why the competitive factor is the best one |
| `HistoryList`, `Simulator` | the linked list on the heap; TLB, physical memory and the run itself |
| `Dining`, `DiningSteps`, `DiningSafety` | steps of a philosopher; ownership, exclusion, no deadlock |
| `DiningProgress`, `DiningRace`, `DiningLimits` | conservation and termination, with an atomic take of rice and without; where they stop |
| `DiningReport` | when the program prints, and what it has counted by then |
| `DiningThreads` | the shared data, philosophers and dinner objects |
| `FsModel`, `FsAllocation`, `FsFiles`, `FsSessions`, `FsRemount` | the file system's state; bitmap, contents, sessions, saving and mounting again |
| `FsSteps` | what each operation does to inodes, dirty flags, bitmap and disk; unused inodes over a session |
| `FsCrash`, `FsLimits` | ending without saving; removals that come back, and inputs for which saving and copying in fail |
| `FsObjects`, `FsCommands` | disk and file system objects, command functions, whole sessions |

## Results

* **OPTIMUM is optimal** for every reference string, every k >= 1 and every demand-paging policy, also one that
  drops pages whenever it likes. The proof counts, for every time t, the resident pages used again by t.
* **FIFO and LRU are competitive** with k >= 2 frames: (k - h + 1) times their faults is at most k times the faults
  of any policy with h <= k frames. **No smaller factor will do**: p / q times OPTIMUM's faults with h frames, with
  any constant added or none, is enough on all strings exactly when p / q >= k / (k - h + 1), because of the cycle of
  k + 1 pages. With h = k FIFO and LRU lie between OPTIMUM and k times OPTIMUM, as `CompareAlgorithms` ensures. Each
  of these two bounds holds for all strings exactly when k >= 2: with one frame the string 0 1 2 2 breaks the upper
  one and 0 1 2 1 the lower one.
* **LRU is a stack policy**: with k >= 2 its history is the top of the recency stack, for every k >= 1 more frames
  hold a superset of the pages, and so more frames never mean more faults.
* **FIFO is a ring**: with k >= 2 load number n goes into frame n mod k. **Belady's anomaly** is settled for every
  pair of frame counts: FIFO never faults more often with k' >= k frames than with k, on all strings, exactly when
  k' = k or k' >= 2 k - 1.
* With **one frame** FIFO and LRU are broken, because `RemoveTail` leaves a sole node linked: "the referenced page
  is resident after each iteration" holds for all strings exactly when k >= 2.
* **No deadlock** exactly when it is not one philosopher alone with rice to eat, whose two chopsticks are the same.
  Neighbours never eat together, and at most half of the philosophers eat at once.
* With N >= 2 **every run of the philosophers is finite** and ends with everybody on vacation and every chopstick
  free. This also holds when the test, the load and the store of `Rice` are separate steps. Then no rice is lost, and
  the count is exact in every run exactly when N <= 3 (or there is no rice), since then nobody else eats meanwhile.
* **The printed total can be too small or too large.** Main finds no rice, waits only for the philosopher created last
  and then adds up. It is the initial rice in every run exactly when N <= 1 or there is no rice, and never more than
  that exactly when a pound is taken in one step, N <= 3, or there is no rice; it is then exact just if nobody has a
  pound in hand whose count is read. Counts and pounds in hand as they are read never total less than the initial
  rice. Once all threads have ended the counts do add up to it, with an atomic take or N <= 3.
* **The bitmap is exact** in every state of every session: a data block is free exactly when no inode points to it.
* **What copyin stores, copyout returns**, padded to whole blocks, whatever happens to other files in between.
  The copyin command dies of a full disk exactly when it has an inode it accepts, with a number below the number of
  inode blocks, and needs more blocks than are free.
* **Ending a session and mounting again restores the state exactly when** every inode block in which a command
  removed something also had an inode created in it: `remove` does not mark its block dirty, `create` does. A removal
  alone is always forgotten. The saved disk is well formed for the next session exactly when no block of an inode
  that comes back has been given to another file; a disk on which two inodes end up with one block is shown.
* **A session that dies loses only itself**: the next mount finds the inode table and the bitmap of the last mount,
  and the bytes of every file that no command had removed.

## Readings of the source

* On a hit `swapPage_Optimal` has no return statement; the model returns the frame it was given, as the comment
  at Assignment/project4/MemoryManagementPart2.cpp:308 intends.
* The step functions take any page numbers. Those of the program are bytes, so the strings above, with pages 0 to k or
  0 to k', occur in it for up to 255 frames.
* A philosopher eats while it holds both chopsticks. The flag `v_State` is EATING at start-up without any.
* A step is one access to shared data; assignments to a thread's own fields are joined to a neighbouring step.
  With `atomic` the test and decrement of `Rice` are one step, without it they are three.
* All constructors store their thread handle in one global (Assignment/Project2/DinningPhilosopher/Philosopher.cpp:9,
  24), so every `isVacationing` (60) waits for the philosopher created last, and main
  (Assignment/Project2/DinningPhilosopher/DinningPhilosopher.cpp:27-40) adds up while the others may still eat.
  `Dinner.Report` does what main does; `Dinner.Dine` adds up when every thread has ended.
* `copyin` and `copyout` open their files in text mode (cpeg308_503_Project_5_file_system/file_system.cpp:284, 313),
  so the bytes of the model are those that `fread` returns and `fwrite` is given, which on Windows need not be the
  bytes of the files.
* `copyout` looks at pointer index 5, which is the indirect pointer in memory, but only uses it below index 5.
* The copy buffer of 8 * BUFSIZ bytes is one block of 4096 bytes (BUFSIZ is 512). It is reused, so the last block
  of a file is filled up with bytes of the block before.
* `isValidInode` compares with the number of inode blocks, not inodes. `do_copyin` then fails for higher numbers,
  but the inode stays created.
* The statement guarded by `if (...);` in `mount` always runs; pointer 0 is outside the data blocks, so it is harmless.
* A write with no free block makes the disk throw; nothing catches that, so the program ends without saving.

## Model

| member | source | states |
|---|---|---|
| Paging.AddressSplits | Assignment/project4/MemoryManagementPart2.cpp:176-200 | page number and offset are the two low bytes of the address, also for negative addresses |
| PagingSteps.OptimumStores | Assignment/project4/MemoryManagementPart2.cpp:292-361 | OPTIMUM changes nothing on a hit; a page that is not resident goes into the first empty row, or else into the first row among those whose page is used farthest ahead, and every other row stays |
| PagingSteps.OptimumFrameExists | Assignment/project4/MemoryManagementPart2.cpp:292-361 | for every TLB with a row and every page there is such a row |
| PagingSteps.OptimumTakesFirst | Assignment/project4/MemoryManagementPart2.cpp:352-356 | pages 0 1 2 3 with three frames leave 3 1 2, the first of the pages never used again being replaced |
| PagingSteps.ListPolicyFaults | Assignment/project4/MemoryManagementPart2.cpp:246-286 | with any number of frames a fault of FIFO or LRU puts the page at the head of the history and into the first empty row, or else into the row of the tail's page, which leaves the history unless it is alone there |
| PagingSteps.ListPolicyHits | Assignment/project4/MemoryManagementPart2.cpp:265-286 | a hit changes nothing with FIFO; with LRU the page's first entry in the history moves to the head |
| PagingRuns.RunsStayCoherent | Assignment/project4/MemoryManagementPart2.cpp:363-397 | in every FIFO or LRU run with k >= 2 the occupied TLB rows are the first ones, hold pairwise distinct pages, and hold exactly the pages of the duplicate-free history list |
| PagingRuns.StepIsListStep | Assignment/project4/MemoryManagementPart2.cpp:246-286 | an iteration is a hit that changes at most the history order, a load into the first empty frame, or a replacement of the page at the history's tail in that page's frame |
| PagingRuns.OptimumStaysOk | Assignment/project4/MemoryManagementPart2.cpp:363-397 | in every OPTIMUM run with any number of frames the pages are distinct, empty rows come last, and the page just referenced is resident |
| PagingRuns.SoleFrameLosesPage | Assignment/project4/LinkedList.cpp:38-53 | with one frame the third of three different pages is not loaded, because the sole node is not unlinked |
| PagingRuns.ReferencedPageIsResidentIff | Assignment/project4/MemoryManagementPart2.cpp:363-397 | FIFO and LRU have the referenced page resident after every iteration of every run if and only if k >= 2 |
| PagingRuns.ResidentPagesAreListed | Assignment/project4/LinkedList.cpp:64-100 | for every k >= 1 each resident page is in the history, so `MoveToHead` only looks for pages it finds and the search loop of `Remove` stops |
| Belady.OptimumKeepsAhead | Assignment/project4/MemoryManagementPart2.cpp:292-361 | before every iteration OPTIMUM has not faulted more than the other policy, and for every time t holds as many pages used by t, up to the difference in faults |
| Belady.OptimumIsOptimal | Assignment/project4/MemoryManagementPart2.cpp:292-397 | OPTIMUM faults at most as often as any demand-paging policy with k frames on the same string |
| LruOrder.HistoryIsTopOfStack | Assignment/project4/MemoryManagementPart2.cpp:265-286 | with k >= 2, the LRU history is the first min(k, distinct pages so far) entries of the unbounded move-to-front list |
| LruOrder.StackIsByRecency | Assignment/project4/MemoryManagementPart2.cpp:265-286 | that list holds exactly the pages referenced so far, ordered by last use |
| LruOrder.LruHistoryIsRecency | Assignment/project4/MemoryManagementPart2.cpp:265-286 | with k >= 2, the history is ordered by last use and every page in it was used later than any page not in it |
| LruOrder.LruEvictsLeastRecent | Assignment/project4/MemoryManagementPart2.cpp:275-280 | with k >= 2, a page leaves only on a fault with all frames in use, and it is the resident page used longest ago |
| LruOrder.LruInclusion | Assignment/project4/MemoryManagementPart2.cpp:265-286 | after every prefix the pages resident with k >= 1 frames are resident with any k' >= k frames |
| LruOrder.LruFaultsMonotone | Assignment/project4/MemoryManagementPart2.cpp:265-286 | LRU never faults more often with more frames, from one frame on |
| FifoOrder.FifoHistoryIsLoadOrder | Assignment/project4/MemoryManagementPart2.cpp:246-263 | with k >= 2, the FIFO history is the resident pages from newest load to oldest, and load number n lies in frame slot n of a ring of k |
| FifoOrder.FifoReplacesOldestLoad | Assignment/project4/MemoryManagementPart2.cpp:254-259 | with k >= 2, fault number n stores into frame n mod k only, which is empty or holds the page of load n - k, the oldest one |
| FifoOrder.FifoIsQueue | Assignment/project4/MemoryManagementPart2.cpp:246-263 | with k >= 2, the pages loaded are those of a plain queue: a page is loaded unless it is among the last k loads |
| FifoOrder.FifoFaultsAreQueueLoads | Assignment/project4/MemoryManagementPart2.cpp:363-397 | with k >= 2 the FIFO fault count is the number of pages that queue loads |
| FifoAnomaly.FifoMonotoneIff | Assignment/project4/MemoryManagementPart2.cpp:246-263 | for all 1 <= k <= k': FIFO with k' frames faults at most as often as with k on all strings if and only if k' = k or k' >= 2 k - 1 |
| FifoAnomaly.AnomalousFaults | Assignment/project4/MemoryManagementPart2.cpp:363-397 | for 2 <= k < k' < 2 k - 1 the pages 0 to k' - 1, 0 to k - 2, k', 0 to k' give 2 k' + 1 FIFO faults with k frames and 2 k' + 2 with k' |
| FifoAnomaly.BeladysAnomaly | Assignment/project4/MemoryManagementPart2.cpp:363-397 | 0 1 2 3 0 1 4 0 1 2 3 4 gives 9 FIFO faults with three frames and 10 with four |
| Competitive.RunsAreCharged | Assignment/project4/MemoryManagementPart2.cpp:246-286 | throughout a run with k >= 2 the faults of FIFO or LRU plus the weight of the history pages OPTIMUM lacks are covered by OPTIMUM's faults |
| Competitive.ListPoliciesAreCompetitive | Assignment/project4/MemoryManagementPart2.cpp:246-286 | with k >= 2, (k - h + 1) times the faults of FIFO or LRU with k frames is at most k times those of OPTIMUM with h <= k frames |
| Competitive.CompetitiveWithAnyPolicy | Assignment/project4/MemoryManagementPart2.cpp:246-286 | with k >= 2, the same bound against every demand-paging policy with h <= k frames |
| Competitive.OptimumBeatsListPolicies | Assignment/project4/MemoryManagementPart2.cpp:67-76 | with k >= 2, OPTIMUM faults at most as often as FIFO and as LRU on the same addresses |
| Competitive.AtMostKTimesOptimumIff | Assignment/project4/LinkedList.cpp:38-53 | FIFO and LRU fault at most k times as often as OPTIMUM on all strings if and only if k >= 2 |
| Competitive.NeverBelowOptimumIff | Assignment/project4/LinkedList.cpp:38-53 | FIFO and LRU never fault less often than OPTIMUM on all strings if and only if k >= 2; with one frame they do on 0 1 2 1 |
| CompetitiveLimits.CycleIsHard | Assignment/project4/MemoryManagementPart2.cpp:246-286 | with k >= 2, on t references that go round k + 1 pages FIFO and LRU with k frames fault t times and OPTIMUM with h <= k frames at most (k - h + 1) t / k + h times |
| CompetitiveLimits.FactorIff | Assignment/project4/MemoryManagementPart2.cpp:246-286 | with k >= 2 and h <= k, for every p, q and c: q times the faults of FIFO or LRU with k frames is at most p times OPTIMUM's with h frames plus c on all strings if and only if q k <= p (k - h + 1) |
| HistoryList.LinkedList.AddToHead | Assignment/project4/LinkedList.cpp:102-113 | prepends the page and keeps Head, Tail, Previous and Next consistent with one sequence |
| HistoryList.LinkedList.RemoveTail | Assignment/project4/LinkedList.cpp:38-53 | returns the last page (-1 if there is none) and drops it unless it is the only one |
| HistoryList.LinkedList.Remove | Assignment/project4/LinkedList.cpp:64-100 | removes the first node with the page, given that there is one and that it is not the sole node |
| HistoryList.LinkedList.MoveToHead | Assignment/project4/LinkedList.cpp:55-62 | moves the page to the head, nothing if it is there or the list is empty |
| Simulator.MemoryManager.InitPhysicalMemory | Assignment/project4/MemoryManagementPart2.cpp:89-97 | empties every TLB row and every frame |
| Simulator.MemoryManager.IsPageLoaded | Assignment/project4/MemoryManagementPart2.cpp:205-217 | returns the frame of the first row with the page, or NOT_FOUND |
| Simulator.MemoryManager.FindEmptyFrame | Assignment/project4/MemoryManagementPart2.cpp:228-239 | returns the first empty row, or NOT_FOUND |
| Simulator.MemoryManager.LoadLogicalToPhysical | Assignment/project4/MemoryManagementPart2.cpp:101-121 | copies the page's bytes into exactly that frame, and fails without effect for a page or frame out of range |
| Simulator.MemoryManager.UpdateTLB | Assignment/project4/MemoryManagementPart2.cpp:123-129 | writes page and frame into exactly that row, and nothing for a frame out of range; the other rows keep theirs |
| Simulator.MemoryManager.SwapPageFIFO | Assignment/project4/MemoryManagementPart2.cpp:246-263 | the frame given on a hit, with the history as it was; else the first empty row, or the first row of the page at the tail, with the page at the head of the history and the tail gone unless it is alone |
| Simulator.MemoryManager.SwapPageLRU | Assignment/project4/MemoryManagementPart2.cpp:265-286 | the frame given on a hit, with the page moved to the head of the history, given that it is in it; else as FIFO |
| Simulator.MemoryManager.ScanFuture | Assignment/project4/MemoryManagementPart2.cpp:329-357 | the nested loops return the first frame among those whose page is used farthest ahead |
| Simulator.MemoryManager.SwapPageOptimal | Assignment/project4/MemoryManagementPart2.cpp:292-361 | the frame of the page on a hit, else the first empty row, else the first row among those whose page is used farthest ahead |
| Simulator.MemoryManager.Access | Assignment/project4/MemoryManagementPart2.cpp:372-393 | one iteration computes the step function on TLB and history, reports a fault exactly for a page not in the TLB, and keeps every occupied row's frame equal to its page in the backing store |
| Simulator.MemoryManager.Run | Assignment/project4/MemoryManagementPart2.cpp:363-397 | terminates for every address list with the fault count, TLB and history of the run of step functions |
| Simulator.MemoryManager.FetchAddress | Assignment/project4/MemoryManagementPart2.cpp:205-225 | looking up a resident page in the TLB and fetching the byte at the offset of its frame gives the backing store's byte at that page and offset |
| Simulator.MemoryManager.LastAddressTranslates | Assignment/project4/MemoryManagementPart2.cpp:205-225 | after a run the last address translates to the backing store's byte at its page and offset |
| Simulator.MemoryManager.CompareAlgorithms | Assignment/project4/MemoryManagementPart2.cpp:67-76 | returns the fault counts of the FIFO, LRU and OPTIMUM runs; with k >= 2 the first two lie between the third and k times the third |
| DiningSafety.RunsKeepInv | Assignment/Project2/DinningPhilosopher/SharedData.cpp:27-73 | with N >= 2, in every state of every run each chopstick is free with count 1 or held by exactly one of its two neighbours, and flags and pounds match the program point |
| DiningSafety.StatusGoesRound | Assignment/Project2/DinningPhilosopher/Philosopher.cpp:33-56 | with N >= 2 a step moves the status flag on by one in the circle EATING, THINKING, HUNGRY, WAITING, from VACATION to EATING at the start, or keeps it, or ends the thread on VACATION, and changes no other philosopher |
| DiningSteps.RunStepIs | Assignment/Project2/DinningPhilosopher/Philosopher.cpp:33-56 | every field of the thread after each step of `Run`, with rice and chopsticks as before: EATING when it starts, RiceConsume grown by the pound when `Eat` returns |
| DiningSteps.EatStepIs | Assignment/Project2/DinningPhilosopher/SharedData.cpp:27-74 | rice, chopsticks and every field of the thread after each step of `Eat`, or all as before if the chopstick it wants is taken |
| DiningSafety.NeighboursNeverEatTogether | Assignment/Project2/DinningPhilosopher/SharedData.cpp:33-54 | two neighbours are never both between their second wait and their first signal |
| DiningSafety.AtMostHalfEat | Assignment/Project2/DinningPhilosopher/SharedData.cpp:33-70 | at most half of the philosophers eat at the same time |
| DiningSafety.SomeoneCanMove | Assignment/Project2/DinningPhilosopher/SharedData.cpp:33-70 | from any philosopher who has not left, following the holders of wanted chopsticks leads to one who can step |
| DiningSafety.StuckMeansDone | Assignment/Project2/DinningPhilosopher/SharedData.cpp:33-70 | no step is possible if and only if everybody has left |
| DiningProgress.RiceIsConserved | Assignment/Project2/DinningPhilosopher/SharedData.cpp:40-43 | with N >= 2 and an atomic take, rice left plus pounds handed out is the initial rice in every state |
| DiningProgress.RunsAreBounded | Assignment/Project2/DinningPhilosopher/Philosopher.cpp:33-56 | with N >= 2 and an atomic take, every run has at most rice * (13 N + 1) + 13 N steps |
| DiningProgress.MaximalRunsFinish | Assignment/Project2/DinningPhilosopher/Philosopher.cpp:33-56 | with N >= 2, a run that cannot go on ends with all on VACATION, every chopstick free, Rice = 0 and the RiceConsume total equal to the initial rice |
| DiningLimits.AloneIsStuck | Assignment/Project2/DinningPhilosopher/SharedData.cpp:108-117 | one philosopher waits for the chopstick it already holds |
| DiningLimits.DeadlockFreeIff | Assignment/Project2/DinningPhilosopher/SharedData.cpp:33-70 | for every N, rice and granularity: a run only ever gets stuck with everybody gone, if and only if N is not 1 or there is no rice |
| DiningLimits.NoRiceIsLost | Assignment/Project2/DinningPhilosopher/SharedData.cpp:39-61 | with N >= 2 and separate loads and stores, rice left plus pounds handed out is never less than the initial rice, nor will it be after a pending store |
| DiningLimits.CountIsExactIff | Assignment/Project2/DinningPhilosopher/SharedData.cpp:39-61 | for every N and rice: with separate loads and stores that sum is exact in all runs if and only if N <= 3 or there is no rice |
| DiningLimits.TwoTakeTheSamePound | Assignment/Project2/DinningPhilosopher/SharedData.cpp:58-61 | for every N >= 4 philosophers 0 and 2 can both store the same amount less one |
| DiningRace.RaceDecreases | Assignment/Project2/DinningPhilosopher/Philosopher.cpp:37-54 | every step, atomic or not, lowers an exponential measure of Rice, loaded values and program points |
| DiningRace.RacedRunsAreBounded | Assignment/Project2/DinningPhilosopher/Philosopher.cpp:33-56 | with N >= 2, every run is finite even with separate loads and stores of Rice |
| DiningRace.RacedRunsFinish | Assignment/Project2/DinningPhilosopher/Philosopher.cpp:33-56 | with N >= 2, such runs end with all on VACATION, chopsticks free, no rice left and at least the initial rice eaten; with N <= 3 Rice ends at 0 and exactly the initial rice is eaten |
| DiningThreads.SharedData.GetRightChopstic | Assignment/Project2/DinningPhilosopher/SharedData.cpp:114-122 | passes if and only if the chopstick at (who + 1) mod N is free, and then takes exactly that one; otherwise the thread has to wait and nothing changes |
| DiningThreads.SharedData.PutChopstic | Assignment/Project2/DinningPhilosopher/SharedData.cpp:135-138 | a taken chopstick gets count 1 again, a free one stays, and no other changes |
| DiningThreads.Philosopher.RunStep | Assignment/Project2/DinningPhilosopher/Philosopher.cpp:33-56 | the steps of `Run` as `DiningSteps.RunsOn` lists them field by field, EATING at the start, with nothing shared changed |
| DiningThreads.Philosopher.EatStep | Assignment/Project2/DinningPhilosopher/SharedData.cpp:27-74 | the steps of `Eat` as `DiningSteps.EatsOn` lists them: left chopstick first for odd and right first for even numbers; a thread whose chopstick is taken stays where it is |
| DiningThreads.Dinner.Advance | Assignment/Project2/DinningPhilosopher/Philosopher.cpp:11-56 | letting a thread go on is one step of the table, or none if the thread has to wait or has ended, and leaves every other philosopher alone |
| DiningReport.PrintedTotal | Assignment/Project2/DinningPhilosopher/DinningPhilosopher.cpp:27-40 | whenever main finds no rice, then sees the last thread's end and then reads the counts one by one: counts and pounds in hand as read total at least the initial rice; with an atomic take, N <= 3 or no rice just that, so the printed total is exact if and only if no philosopher has a pound in hand when its count is read |
| DiningReport.MainPrintsLess | Assignment/Project2/DinningPhilosopher/DinningPhilosopher.cpp:34-39 | for every N >= 2 and rice >= 1, with an atomic take or without, there is a run in which main counts one pound less than the initial rice |
| DiningReport.MainPrintsMore | Assignment/Project2/DinningPhilosopher/DinningPhilosopher.cpp:34-39 | for every N >= 4 and rice >= 1, with separate loads and stores, there is a run in which main counts more than the initial rice |
| DiningReport.PrintedIsExactIff | Assignment/Project2/DinningPhilosopher/DinningPhilosopher.cpp:27-40 | for every N and rice, with an atomic take or without: the total that main prints is the initial rice in all runs if and only if N <= 1 or there is no rice |
| DiningReport.PrintedIsAtMostIff | Assignment/Project2/DinningPhilosopher/DinningPhilosopher.cpp:27-40 | that total is at most the initial rice in all runs if and only if the take is atomic, N <= 3 or there is no rice |
| DiningThreads.Dinner.Report | Assignment/Project2/DinningPhilosopher/DinningPhilosopher.cpp:27-40 | the two waits and the adding up, with any steps of the others in between, end under every schedule; counts and pounds in hand as read total at least the initial rice, and just that with an atomic take or N <= 3 |
| DiningThreads.Dinner.Dine | Assignment/Project2/DinningPhilosopher/Philosopher.cpp:33-56 | under every schedule all threads end on vacation with every chopstick free; the RiceConsume total is then the initial rice with an atomic take or N <= 3 (where Rice ends at 0), and never less |
| FsAllocation.WriteKeepsWF | cpeg308_503_Project_5_file_system/FileSystem.cpp:264-275 | writing to an unused pointer keeps the bitmap exact and all blocks unshared, unless the disk is full |
| FsAllocation.RemoveKeepsWF | cpeg308_503_Project_5_file_system/FileSystem.cpp:206-219 | removing frees exactly the blocks that are no longer pointed to |
| FsAllocation.CreateKeepsWF | cpeg308_503_Project_5_file_system/FileSystem.cpp:190-203 | an inode handed out was invalid and has only null pointers; with none left nothing changes |
| FsSteps.CreateMarksFirstUnused | cpeg308_503_Project_5_file_system/FileSystem.cpp:190-203 | the first inode marked invalid gets Valid 1 and keeps size and pointers, only its block becomes dirty, and nothing else changes |
| FsSteps.RemoveClears | cpeg308_503_Project_5_file_system/FileSystem.cpp:206-219 | the inode gets Valid 0, size 0 and five null pointers and keeps its indirect pointer; exactly the data blocks it pointed to become free; other inodes, dirty flags and disk are as before |
| FsSteps.WriteTakesLowestFree | cpeg308_503_Project_5_file_system/FileSystem.cpp:264-275 | if b is the lowest free data block, the pointer at the index becomes b and block b holds the bytes and is marked used; nothing else changes |
| FsSteps.WriteOnFullDisk | cpeg308_503_Project_5_file_system/FileSystem.cpp:264-275 | with no free block only that pointer changes, to the size of the disk, and the disk throws |
| FsSteps.CopyinTakesLowestFree | cpeg308_503_Project_5_file_system/file_system.cpp:312-350 | the pointers become the lowest free blocks in ascending order, one per 4096 bytes begun and at most five, the others stay null; the blocks hold the file, then what the buffer held before; only the size of the inode, those blocks and their bits change besides |
| FsSteps.CopyoutReads | cpeg308_503_Project_5_file_system/file_system.cpp:283-310 | what is copied out is, block by block and in order, the blocks before the first null pointer |
| FsSteps.RefusedStaysCreated | cpeg308_503_Project_5_file_system/file_system.cpp:257-266 | a copyin whose inode number is not below the number of inode blocks leaves that inode created, with its size, without bytes, and its block dirty; nothing else changes |
| FsSteps.NothingToCreate | cpeg308_503_Project_5_file_system/file_system.cpp:257-266 | a copyin with every inode in use changes nothing |
| FsSteps.AcceptedIsStored | cpeg308_503_Project_5_file_system/file_system.cpp:257-266 | a copyin that is accepted and has blocks enough fills the first unused inode, marks its block dirty, and changes no other inode |
| FsSteps.RemovedStaysEmpty | cpeg308_503_Project_5_file_system/FileSystem.cpp:206-228 | after a removal, in every session, stat of the inode is 0 and it has no blocks as long as no copyin takes it again |
| FsSteps.UnusedStayEmpty | cpeg308_503_Project_5_file_system/FileSystem.cpp:190-228 | if no invalid inode has a size or blocks at the start of a session, none has in any state of it |
| FsSteps.MountReads | cpeg308_503_Project_5_file_system/FileSystem.cpp:148-186 | inode i is read from block i / 128 + 1, the dirty flags are false, and a block is free if and only if it was before and no valid inode points to it |
| FsSteps.SavingWrites | cpeg308_503_Project_5_file_system/FileSystem.cpp:19-39 | a dirty inode block is written with its 128 inodes in memory, every other block stays |
| FsSteps.InodeBytesAt | cpeg308_503_Project_5_file_system/FileSystem.h:19-24 | byte 32 i + 4 w of an inode block starts field w of inode i, lowest byte first |
| FsFiles.CopyinCopyout | cpeg308_503_Project_5_file_system/file_system.cpp:312-350 | copying n bytes into a blank inode gives a file of min(n, 5 blocks) bytes that copyout writes back first, rounded up to whole blocks; every other file is as before |
| FsFiles.CopyinHaltsIff | cpeg308_503_Project_5_file_system/FileSystem.cpp:65-72 | copying into an inode just created dies of a full disk if and only if fewer blocks are free than the file needs, at most five |
| FsSessions.SessionsKeepAllocation | cpeg308_503_Project_5_file_system/FileSystem.cpp:190-275 | after every session a data block is marked free exactly when no inode points to it, and no block is pointed to twice |
| FsSessions.FilesSurvive | cpeg308_503_Project_5_file_system/FileSystem.cpp:190-281 | a file in use keeps its inode and bytes through every session that does not remove it |
| FsSessions.CopyinThenCopyout | cpeg308_503_Project_5_file_system/file_system.cpp:283-350 | what the copyin command stores, copyout returns after any commands that do not remove the file |
| FsSessions.DoCopyinHaltsIff | cpeg308_503_Project_5_file_system/file_system.cpp:257-266 | the copyin command ends the program if and only if the first invalid inode's number is below the number of inode blocks and fewer blocks are free than the file needs |
| FsRemount.MountIsWF | cpeg308_503_Project_5_file_system/FileSystem.cpp:148-186 | mounting a well-formed disk on a new file system rebuilds the bitmap exactly |
| FsRemount.MountAgainIsWFIff | cpeg308_503_Project_5_file_system/FileSystem.cpp:148-186 | mounting a well-formed disk over an older bitmap leaves a data block free if and only if it was free and no inode points to it; the state is well formed if and only if every block marked before is pointed to |
| FsRemount.ReloadedAt | cpeg308_503_Project_5_file_system/FileSystem.cpp:19-39 | after saving and mounting again an inode is as in memory if its block is dirty, else as it was on disk |
| FsRemount.SessionsAreTracked | cpeg308_503_Project_5_file_system/FileSystem.cpp:190-219 | throughout a session the dirty blocks are those with a created inode, and elsewhere memory differs from disk exactly by removals |
| FsRemount.RemountRestoresIff | cpeg308_503_Project_5_file_system/FileSystem.cpp:19-39 | ending a session and mounting again restores the inode table if and only if every block with an effective removal had an inode created in it; then bitmap and all files are restored too |
| FsLimits.SavedImageIsOkIff | cpeg308_503_Project_5_file_system/FileSystem.cpp:19-39 | the saved disk is well formed if and only if every block of an inode that was removed but is not saved is still free |
| FsLimits.RemovalIsLost | cpeg308_503_Project_5_file_system/FileSystem.cpp:206-219 | a session that only removes a file leaves the disk as it was, for every well-formed disk and every file |
| FsLimits.RemoveIsNotRestored | cpeg308_503_Project_5_file_system/FileSystem.cpp:206-219 | on a well-formed disk with one empty file, removing it is not restored by the next mount |
| FsLimits.ComesBackAndShares | cpeg308_503_Project_5_file_system/FileSystem.cpp:19-39 | on a disk whose only data block belongs to inode 128, removing that and copying in one byte saves a disk that is not well formed |
| FsLimits.NothingFits | cpeg308_503_Project_5_file_system/FileSystem.cpp:65-72 | on a well-formed disk whose only data block is in use and whose inode 0 is not, every copyin of a file that is not empty ends the program |
| FsLimits.NothingIsAccepted | cpeg308_503_Project_5_file_system/file_system.cpp:257-266 | on a well-formed disk without data blocks whose one inode block has inode 0 in use, no copyin ends the program, because the inode it creates is not accepted |
| FsCrash.CommandsKeepDisk | cpeg308_503_Project_5_file_system/FileSystem.cpp:264-275 | a command, also one that dies halfway, changes no inode block and no block in use, and leaves whole data blocks |
| FsCrash.CrashLeavesLastMount | cpeg308_503_Project_5_file_system/FileSystem.cpp:148-186 | mounting the disk of a session that ended without saving gives the table and the exact bitmap of the last mount, and the bytes of every file not removed in it |
| FsObjects.Disk.Write | cpeg308_503_Project_5_file_system/Disk.cpp:109-131 | writes a whole block, and throws for a block number past the end |
| FsObjects.FileSystem.GetNextFreeBlock | cpeg308_503_Project_5_file_system/FileSystem.cpp:65-72 | the first free data block, or the size of the disk |
| FsObjects.FileSystem.GetNextFreeINode | cpeg308_503_Project_5_file_system/FileSystem.cpp:84-103 | the number of the first invalid inode, or INVALIDE_RETURN |
| FsObjects.FileSystem.Create | cpeg308_503_Project_5_file_system/FileSystem.cpp:190-203 | marks the first invalid inode valid and its block dirty, leaves its size and pointers and everything else alone, and returns its number, or INVALIDE_RETURN with nothing changed if there is none |
| FsObjects.FileSystem.Remove | cpeg308_503_Project_5_file_system/FileSystem.cpp:206-219 | the inode gets Valid 0, size 0 and null pointers and keeps the indirect one; its data blocks become free; other inodes, dirty flags and disk stay |
| FsObjects.FileSystem.Stat | cpeg308_503_Project_5_file_system/FileSystem.cpp:223-228 | returns the size recorded in the inode |
| FsObjects.FileSystem.Mount | cpeg308_503_Project_5_file_system/FileSystem.cpp:148-186 | for every disk of whole blocks, on a new file system or again: loads the inode blocks, clears the dirty flags and marks the blocks of valid inodes used, those marked before staying so |
| FsObjects.FileSystem.Read | cpeg308_503_Project_5_file_system/FileSystem.cpp:245-260 | returns the bytes of the whole block at the offset and marks it used, also for an inode block; 0 bytes at a null pointer or past the last one; throws for a pointer past the disk |
| FsObjects.AsIntWraps | cpeg308_503_Project_5_file_system/FileSystem.cpp:250-255 | a pointer is read as the 32-bit `int` congruent to it, negative from 2^31 on |
| FsObjects.FileSystem.Write | cpeg308_503_Project_5_file_system/FileSystem.cpp:264-275 | writes the whole buffer to the lowest free data block, marks it used and points the inode to it, changing nothing else; nothing past the last pointer; throws with no free block |
| FsObjects.FileSystem.SaveDirtyBlocks | cpeg308_503_Project_5_file_system/FileSystem.cpp:19-39 | writes exactly the dirty inode blocks to the disk |
| FsCommands.Copyin | cpeg308_503_Project_5_file_system/file_system.cpp:312-350 | the loop over the reused buffer stores the file chunk by chunk and sets its size, or dies with the disk |
| FsCommands.Copyout | cpeg308_503_Project_5_file_system/file_system.cpp:283-310 | the loop writes the file's blocks up to the first null pointer and changes nothing |
| FsCommands.DoCopyin | cpeg308_503_Project_5_file_system/file_system.cpp:257-266 | succeeds if and only if the first invalid inode's number is below the number of inode blocks and enough blocks are free, and ends the program if and only if that number is accepted and too few blocks are free |
| FsCommands.Session | cpeg308_503_Project_5_file_system/file_system.cpp:59-111 | mounting, carrying out any commands and ending leaves the state and the disk of the session's step functions, also when an exception ends it |

## Left out

- Project 1 (messages between windows) and project 3 (paging without replacement): they would add easier members.
- Reading the address file and the backing store: they are parameters, and the backing store is present.
- Console output, sleeps, random delays, thread creation and joining, window and file handles, freeing memory.
- `format` and `debug`: the first clears blocks without writing the superblock it builds; sessions start from a well-formed disk.
- Sessions that mount a second time, or a disk whose pointers are shared or out of range: FsObjects.FileSystem.Mount takes both, the results about sessions start from one mount of a well-formed disk.
- The byte layout of the superblock: a disk block is a superblock, a list of inodes or data bytes, as the union's users treat it. The bytes of an inode block matter only when a file's pointer leads to one.
- Commands that name an inode outside the table: the source does not check the number.
- HistoryList.LinkedList.Remove: takes a list that holds the page and another node, because the source loops for ever on a missing page and dereferences null on the sole node.
- DiningThreads.SharedData.GetChopstic: the order in which waiting threads pass a semaphore; no result needs it.
- DiningThreads.Dinner.Report: takes at least two philosophers, because with one and rice to eat main waits for ever; DiningReport.PrintedTotal has every N.
- A `copyin` whose file cannot be opened: the inode stays created and empty (cpeg308_503_Project_5_file_system/file_system.cpp:262, 314-317); it is no command here.
