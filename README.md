# Parallel matching engine: the scheduling protocol, in Dafny

This project models the scheduling core of the VF3 parallel matching engine
(`ParallelMatchingEngine`): a pool of workers that explores a tree of
partial-matching states. The workers share one LIFO frontier of pending
states (`globalStateStack`), a counter of states popped but not yet finished
(`activeWorkerCount`), a solution counter (`solCount`) and an optional
solution log (`solutions`). The threads, mutexes and atomics are not
modelled. The sequential protocol beneath them is, in three modules:

- `SearchState` is the state capability the engine is generic over, kept
  abstract. A state is its core set plus the finite search tree below it:
  goal and dead flags, plus the candidate pairs in the order the `NextPair`
  cursor yields them. Each candidate carries whether `IsFeasiblePair`
  accepts it and the tree below the state `AddPair` builds from it. `AddPair`
  extends a copy's core by exactly the one pair. `Tally` folds a weight over
  the nodes the engine visits. From it come `GoalCount` (the goal nodes
  reachable through feasible pairs without passing through a goal or a dead
  node) and `Size` (the number of states processed).
- `Engine` is the engine as a class, with those fields and one method per
  operation. Each lock-protected region is one step of a method. The pool is
  run in one particular interleaving: each worker's `Run` executes where the
  caller joins that worker. Worker 0 then drains the frontier alone, and every
  later worker finds the frontier empty and the counter zero, so it exits at
  once. The class's methods and the steps of module `Interleaving` are two
  definitions of the same operations, and no lemma maps the class's fields
  to an `Interleaving` configuration. What `Interleaving.JoinOrderIsASchedule`
  does prove is about configurations only: the schedule in which each worker
  runs its whole loop in join order is a schedule of the pool, and it ends
  with the same count that `FindAllMatchings` states. That the class's run is
  this schedule rests on reading the two definitions side by side.
- `Interleaving` covers every interleaving. Each worker is a program counter
  in `Run`'s loop. One step of a worker is one atomic action of the source:
  - the pop, which increments the counter on success;
  - the loop test;
  - the classification with its `solCount` increment;
  - the append to the solution log;
  - one `NextPair` call together with its `PutState`;
  - the release.

  A schedule is any sequence of worker indices. The invariant `Inv` has
  seven clauses:
  - every expanding worker walks the cursor of a live state and has not run
    past its candidates;
  - the counter equals the number of states popped and not yet released;
  - the goals already counted, plus those below the frontier, plus those
    below held states, add up to `GoalCount(root)`;
  - when storing, the log holds one entry per counted goal, except for the
    entries of workers about to append theirs; when not storing, it is empty;
  - a non-empty frontier always has a worker that will still pop from it;
  - every pushed state is still on the frontier or has been popped;
  - every popped state is still held by a worker or has been released.

  Only once every worker has exited does this give that every pushed state
  was popped and released exactly once (`AllExitedMeansDrained`).

  Every step preserves `Inv`. When all workers have exited, every goal has
  been counted, whatever the number of workers and the schedule. From every
  reachable configuration some schedule lets all workers finish.

Two behaviours of the code that the model makes explicit:

- With `numThreads == 0` the pool is empty. Nobody drains the root's children,
  so `FindAllMatchings` returns with them still on the frontier, having
  counted only the root. The constructor accepts 0. `FindAllMatchings`'s
  contract states this case separately.
- A worker can leave its loop while the frontier is not empty. This happens
  when another worker pushes children and releases its state between this
  worker's failed pop and its reading of the counter
  (`EarlyExitLeavesWorkToOthers`). No work is lost: the invariant keeps a
  busy worker around, and the last worker to exit always finds the frontier
  empty.

## Model

| member | source | states |
|---|---|---|
| `SearchState.ChildrenInCursorOrder` | include/parallel/ParallelMatchingEngine.hpp:131-140 | the children of a live state are exactly one per feasible candidate, in cursor order from NULL_NODE, each the parent's core extended by that one pair |
| `SearchState.LastFeasibleOnTop` | include/parallel/ParallelMatchingEngine.hpp:131-140 | the child of the last feasible candidate is pushed last, so it is on top of the frontier |
| `SearchState.GoalCountCountsGoalPaths` | include/parallel/ParallelMatchingEngine.hpp:108-141 | the goals the search below a tree reaches are exactly the paths that pick a feasible candidate at each live node and end at a goal, and `GoalCount` is their number |
| `SearchState.ExpandTally` | include/parallel/ParallelMatchingEngine.hpp:108-143 | expanding a state hands everything below it, except the state itself, to the children it pushes |
| `SearchState.ExpandCounts` | include/parallel/ParallelMatchingEngine.hpp:110-141 | a goal accounts for one solution and no children; a dead state for none; a live state for the goals of its children; each expansion removes exactly one state from the work left |
| `Engine.ParallelMatchingEngine.constructor` | include/parallel/ParallelMatchingEngine.hpp:51-60 | counters zero, frontier and log empty, `numThreads` default-constructed pool slots, configuration recorded; `storeSolutions`, `cpu` and `visit` default to false, -1 and none |
| `Engine.AffinityOf` | include/parallel/ParallelMatchingEngine.hpp:181-191 | a worker is pinned exactly when `cpu > -1`, and then to a CPU no lower than its own index |
| `Engine.DistinctAffinities` | include/parallel/ParallelMatchingEngine.hpp:181-191 | with affinity enabled, two different workers are never pinned to the same CPU |
| `Engine.ParallelMatchingEngine.GetSolutionsCount` | include/parallel/ParallelMatchingEngine.hpp:64 | returns the solution counter, whose final value `FindAllMatchings` states |
| `Engine.ParallelMatchingEngine.GetThreadCount` | include/parallel/ParallelMatchingEngine.hpp:82-84 | the pool size is the configured `numThreads` |
| `Engine.ParallelMatchingEngine.PutState` | include/parallel/ParallelMatchingEngine.hpp:145-148 | the state goes on top of the frontier, which grows by one; counters and log are untouched |
| `Engine.ParallelMatchingEngine.GetState` | include/parallel/ParallelMatchingEngine.hpp:152-163 | on a non-empty frontier returns the most recently pushed state, removes exactly it and raises the counter by one; on an empty frontier returns none and changes nothing |
| `Engine.ParallelMatchingEngine.ProcessState` | include/parallel/ParallelMatchingEngine.hpp:108-143 | a goal raises `solCount` by one, logs its core set only when storing, pushes nothing, and returns the visitor's verdict or true; a dead state changes nothing and returns false; a live state pushes exactly its feasible children in cursor order and returns false |
| `Engine.ParallelMatchingEngine.Run` | include/parallel/ParallelMatchingEngine.hpp:93-106 | a worker running alone processes and releases every popped state, exits with the frontier empty and the counter back at zero, and adds the goals below everything it found on the frontier to `solCount` |
| `Engine.ParallelMatchingEngine.StartPool` | include/parallel/ParallelMatchingEngine.hpp:179-195 | slot i runs `Run(i)`, pinned to CPU `cpu + i` when `cpu > -1` and unpinned otherwise |
| `Engine.ParallelMatchingEngine.FindAllMatchings` | include/parallel/ParallelMatchingEngine.hpp:66-80 | returns true; with at least one worker, the frontier is drained and `solCount` has grown by the goals reachable from the root; with none, only the root's expansion happened; the root is processed but never releases a credit |
| `Interleaving.Step` | include/parallel/ParallelMatchingEngine.hpp:93-163 | one atomic action of one worker; the pool size and the storing flag never change |
| `Interleaving.Execute` | include/parallel/ParallelMatchingEngine.hpp:93-106 | runs a schedule of worker steps; the pool size and the storing flag never change |
| `Interleaving.Init` | include/parallel/ParallelMatchingEngine.hpp:66-69 | the pool starts with `numThreads` workers and a zero counter; the root's goals are split between the count the caller already made and the frontier; when storing, the log matches the count |
| `Interleaving.FetchEmptyBalanced` | include/parallel/ParallelMatchingEngine.hpp:152-163 | a GetState on an empty frontier leaves the frontier and the log exactly as they were, keeps the counter and the goal books, and moves only the worker on, holding nothing |
| `Interleaving.PopBalanced` | include/parallel/ParallelMatchingEngine.hpp:152-163 | a successful GetState removes exactly the top state from the frontier and hands it to the worker, raises the counter by the one state now held, and moves that state's goals from the frontier to the worker; no other worker changes |
| `Interleaving.TestBalanced` | include/parallel/ParallelMatchingEngine.hpp:105 | the loop test leaves the frontier, the log and `solCount` exactly as they were and changes no other worker; a worker that leaves was already neither popping nor holding a state, so it takes no busy worker away |
| `Interleaving.ClassifyBalanced` | include/parallel/ParallelMatchingEngine.hpp:110-131 | the goal test counts a goal once, moving it from the worker's pending goals to `solCount` (with its log entry now due when storing); a dead state or the cursor start loses no goal |
| `Interleaving.StoreBalanced` | include/parallel/ParallelMatchingEngine.hpp:114-120 | the append under the solutions lock adds exactly the goal's core set at the end of the log, the one entry that was due; the frontier and `solCount` stay as they were |
| `Interleaving.AdvanceBalanced` | include/parallel/ParallelMatchingEngine.hpp:132-140 | a NextPair call that finds the candidates exhausted or the pair infeasible pushes nothing and loses no goal |
| `Interleaving.PushBalanced` | include/parallel/ParallelMatchingEngine.hpp:134-139 | a NextPair call on a feasible pair pushes exactly that child, moving its goals from the worker to the frontier |
| `Interleaving.ReleaseBalanced` | include/parallel/ParallelMatchingEngine.hpp:101-102 | the delete and decrement give up exactly the held state, which is logged as released, lowering the counter by one |
| `Interleaving.PopKeepsInv` | include/parallel/ParallelMatchingEngine.hpp:152-163 | a successful pop moves the top state from the frontier to the worker and its credit to the counter, keeping the invariant |
| `Interleaving.FetchKeepsInv` | include/parallel/ParallelMatchingEngine.hpp:104 | a pop, successful or not, keeps the invariant |
| `Interleaving.TestKeepsInv` | include/parallel/ParallelMatchingEngine.hpp:105 | the loop test keeps the invariant, and an exiting worker always leaves a busy worker behind if the frontier is non-empty |
| `Interleaving.ClassifyKeepsInv` | include/parallel/ParallelMatchingEngine.hpp:110-131 | counting a goal, pruning a dead state or starting the cursor keeps the invariant |
| `Interleaving.StoreKeepsInv` | include/parallel/ParallelMatchingEngine.hpp:114-120 | appending a goal's solution keeps the log in step with the counter |
| `Interleaving.PushKeepsInv` | include/parallel/ParallelMatchingEngine.hpp:134-139 | pushing a feasible child moves its goals from the worker's pending work to the frontier, with its credit still held |
| `Interleaving.ExpandKeepsInv` | include/parallel/ParallelMatchingEngine.hpp:132-141 | each NextPair call, with the push it may make, keeps the invariant |
| `Interleaving.ReleaseKeepsInv` | include/parallel/ParallelMatchingEngine.hpp:101-102 | releasing after all children are pushed drops exactly that state's credit |
| `Interleaving.StepKeepsInv` | include/parallel/ParallelMatchingEngine.hpp:93-163 | every atomic step of every worker preserves the invariant |
| `Interleaving.InitInv` | include/parallel/ParallelMatchingEngine.hpp:66-69 | after the caller expands the root and starts at least one worker, the invariant holds |
| `Interleaving.ExecuteKeepsInv` | include/parallel/ParallelMatchingEngine.hpp:93-106 | any schedule preserves the invariant |
| `Interleaving.StepAppendsOnly` | include/parallel/ParallelMatchingEngine.hpp:113-119 | no step lowers `solCount` or changes a logged solution: the log only grows at its end |
| `Interleaving.ExecuteAppendsOnly` | include/parallel/ParallelMatchingEngine.hpp:64 | over any schedule `solCount` never drops and every logged solution stays in place, so a `GetSolutionsCount` read mid-search never decreases |
| `Interleaving.AllExitedMeansDrained` | include/parallel/ParallelMatchingEngine.hpp:95-105 | when every worker has exited, the frontier is empty and the counter zero; every goal is counted and, when storing, logged; the multisets of pushed, popped and released states coincide, so every pushed state was popped and released exactly once |
| `Interleaving.CompletedRunCountsEveryGoal` | include/parallel/ParallelMatchingEngine.hpp:64-80 | for any number of workers and any schedule that ends with all of them exited, `solCount` equals the number of goals below the root (the number of paths to them), and so does the log length when storing |
| `Interleaving.ExitOnlyWhenIdle` | include/parallel/ParallelMatchingEngine.hpp:104-105 | a worker exits only after a failed pop followed by a zero counter, when no worker holds a state |
| `Interleaving.EarlyExitLeavesWorkToOthers` | include/parallel/ParallelMatchingEngine.hpp:95-105 | a concrete two-worker schedule of eight steps, traced configuration by configuration, at whose end worker 1 has exited while the goal pushed by worker 0 is still on the frontier |
| `Interleaving.ExecuteAppend` | include/parallel/ParallelMatchingEngine.hpp:96-105 | running two schedules one after the other is running their concatenation |
| `Interleaving.PoolCanAlwaysFinish` | include/parallel/ParallelMatchingEngine.hpp:93-106 | from every configuration satisfying the invariant, some schedule lets every worker exit |
| `Interleaving.NoScheduleBlocksCompletion` | include/parallel/ParallelMatchingEngine.hpp:66-80 | whatever the pool has done so far, it can still run to completion, and the whole run, prefix included, then ends with `solCount` equal to the number of goals below the root |
| `Interleaving.HolderStepProgress` | include/parallel/ParallelMatchingEngine.hpp:98-103 | a step of a worker holding a state in a well-formed phase strictly reduces the work left, whatever the other workers are doing |
| `Interleaving.ExpandStepProgress` | include/parallel/ParallelMatchingEngine.hpp:132-141 | each NextPair step, with or without a push, strictly reduces the work left |
| `Interleaving.IdleStepProgress` | include/parallel/ParallelMatchingEngine.hpp:104-105 | when the counter is zero, a step of a worker that holds nothing and is still in its loop either pops (reducing the work left) or keeps the work and moves the worker from popping to testing to exiting |
| `Interleaving.IdleStepNeverAddsWork` | include/parallel/ParallelMatchingEngine.hpp:104-105 | a step of a worker that holds nothing never adds work, whatever the counter: a pop moves work from the frontier to the worker, the failed pop and the loop test touch none |
| `Interleaving.StepNeverAddsWork` | include/parallel/ParallelMatchingEngine.hpp:93-141 | no step of any worker adds work |
| `Interleaving.HolderStepsBounded` | include/parallel/ParallelMatchingEngine.hpp:93-106 | in any schedule, workers that hold a state take at most as many steps as there is work left, so only the busy-wait of idle workers can go on without end |
| `Interleaving.SoloRun` | include/parallel/ParallelMatchingEngine.hpp:93-106 | a worker stepped alone, with every other worker about to pop or gone, runs its loop to the end: it exits with the frontier empty and the counter zero, and no other worker moves |
| `Interleaving.JoinOrderIsASchedule` | include/parallel/ParallelMatchingEngine.hpp:66-80 | running worker 0 to the end of its loop, then worker 1, and so on, is a schedule of the pool; it ends with every worker exited, the frontier empty and every goal below the root counted |

## Left out

- Threads, mutexes, atomics and memory ordering are not modelled. Each lock
  region is one atomic step, and in the `Interleaving` module the interleaving
  is the choice of schedule. The busy-wait in `Run` is a schedule that steps a
  spinning worker.
- `SetAffinity` is a foreign OS call with diagnostic output, so it is left
  out; only the CPU numbers it receives are modelled (`StartPool`). The
  model follows the non-Windows build: on Windows the pinning branch is
  compiled out and no worker is ever pinned.
- The state's real internals are not modelled. `IsGoal`, `IsDead`,
  `NextPair`, `IsFeasiblePair`, `AddPair` and `GetCoreSet` come from headers
  that are not part of this model; they are read off the abstract tree.
- The `NextPair` cursor is modelled as the position of the last pair returned,
  not as the pair `(n1, n2)` itself. Its candidate list is finite.
- `new`/`delete` and pointer identity are not modelled. States are values,
  and ownership is tracked as multisets of pushed, popped and released
  states. The multisets record how often each state went through each
  operation, not the order in which the operations happened.
- The visitor is an opaque total function. Its result is the value of
  `ProcessState` and has no effect on the search. The `Interleaving` module
  leaves the visitor call out entirely, because it touches no shared state.
- `GetRemainingStates` is never called, `teminate` is never used, and the
  `MatchingEngine` base class is not part of this model. `solutions` is
  taken to start empty.
- Integer widths are not modelled: the `int16_t` fields `numThreads`, `cpu`
  and `activeWorkerCount`, and the `uint32_t` `solCount`. All are unbounded,
  so narrowing and wrap-around are out.
- Engine.ParallelMatchingEngine.Run: requires a zero counter, i.e. no other
  worker holding a state, because the class runs workers one after another.
  Concurrent runs are covered by the `Interleaving` module.
- Engine.ParallelMatchingEngine.FindAllMatchings: states the number of
  solutions, and through `Valid` the length of the log, but not which
  solutions the log holds or in which order.
- Interleaving.Init: the caller's expansion of the root is taken as
  already done when the pool starts, because it runs before any worker thread
  exists; its effect there is the one `ProcessState` states.
