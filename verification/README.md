# A verified model of Concurrit

Concurrit is a stateless search engine for concurrent programs. A test script makes choices and
says how threads may go on; the engine records the choices in an execution tree, runs the script
again and again from the start, steers it down a branch that is not explored yet, and stops when the
root of the tree is covered. This project models the engine's live core in Dafny and proves what it
is for. The results about the search hold for every script and all oracles, whatever these do from
run to run; those about the protocols for every interleaving. Where the code does not do what it is
for, there is an input that shows it and the exact condition.

`dafny verify dfyconfig.toml` checks the whole project.

## The search engine

| file | contents |
|---|---|
| `Counting.dfy` | sequences without repetition, counting |
| `Scripts.dfy` | scripts as finite decision trees, positions in them, what it means to be explored |
| `Search.dfy` | the search as a reference definition that knows no tree, no stack and no flags, and its theorems |
| `ReplayModes.dfy` | replaying the saved stack and replaying the tree make the same runs |
| `RandomStars.dfy` | a script and a coin for which they do not |
| `Pruning.dfy` | what is lost when a run is given up because all threads have ended, and exactly when |
| `OpenMarks.dfy` | the search that fails a check after a node was flagged too early, and exactly when it does |
| `ExecutionTree.dfy` | the node class with its children, flag and thread-variable tables; child slots |
| `TreeStates.dfy` | tree and stack as one value, the invariants, and a lemma for each way the engine changes them |
| `Manager.dfy` | the manager class: replay, extension, ending, deletion, backtracking |
| `Scenario.dfy` | the calls of a script, one run of a script, the exploration loop |
| `SharedEnd.dfy` | a run of the engine in which the end node is looked up in the wrong slot |

A script is a tree of stars (random or not), conditionals, consumed transitions and forall-thread
nodes over a scope; a position is the sequence of answers that leads to it. Node objects are
mutable and point to their parents; all leaves share one end node. The invariants are local (one
node, one slot, one stack entry at a time): the position of a node identifies it, so a well-shaped
heap is a tree. The random bit of a star, the order in which threads reach a forall node and which
of them its predicate accepts, whether a run is given up somewhere (a failed assumption, a failed
replay, a timeout), and whether it is given up because all threads have ended are oracles that may
differ from run to run. Deleting covered subtrees and keeping the tree between runs are
parameters of the engine, as in the configuration.

The engine keeps a ghost record `made` of the paths on its stack at the end of each run, and is
proved to make exactly the runs of the reference search, and to fail a check exactly where the
reference search says so (see below). From this follow exhaustiveness, termination and freedom from
repetition; that deleting covered subtrees changes no run and keeps no covered node
(`Scenarios.NoCoveredNodeIsKept`); and that replaying the stack and choosing again from the coverage
flags make the same runs, and fail no check, when the oracles do not change between runs.
`RandomStars.RandomStarsPart` shows that the last restriction is needed.

A forall node can be flagged covered although something is left below it. The tree of the model then
keeps the flag that the coverage gives, and the ghost field `early` of the manager has the nodes
whose flags are ahead of it: at most the last node on the saved path, and the star or conditional
right above it once that has taken itself for covered. The ghost field `freed` has the nodes that were
deleted; none of them is live, and none is deleted twice.

## The concurrent protocols

| file | contents |
|---|---|
| `HandOff.dfy` | the hand-off of nodes between the script's thread and the threads under test |
| `TraceMeaning.dfy` | what run-through and run-until steps mean for the trace |
| `Rendezvous.dfy` | the two-semaphore slot through which a shadow thread receives events |
| `Lockstep.dfy` | client threads and server shadow threads over two pipes |
| `Handshake.dfy` | starting, restarting and terminating a coroutine's thread through a channel |
| `ReentrantMutex.dfy` | the re-entrant mutex and waiting on a condition variable while it is held |
| `Wire.dfy` | the encoding of events on a pipe, and the copying of event buffers |

Each protocol is a state machine: one atomic step is one exchange, store, semaphore operation or
access to a shared field. The number of threads is unbounded. The checks that the program makes on the
protocol's shared state are steps into a failed state, which is proved unreachable, or reachable in
exactly the ways that are named; two kinds of checks that are not modelled are listed at the end.
What a thread locked, sent, was asked to send, decided or started is also counted from the steps of the
run itself, and the fields of the state are proved to agree.

## Both together

| file | contents |
|---|---|
| `ConcurrentRuns.dfy` | the hand-off driven by a script: any interleaving makes a run of the reference search |
| `RunsHappen.dfy` | the converse: some interleaving makes it, whatever the oracles say |
| `ConcurrentSearch.dfy` | a search in which every run is an interleaving, and the engine that records its paths |

Here a state of the hand-off carries the answers on the path. The script's thread submits the node of a
transition or a forall, or adds a star or a conditional itself; a thread that has the submitted node
gives it back or consumes it, a forall node by the rule that `Scenarios.Scenario.EvalSelectThread`
proves of the engine; and all of this takes effect at one step of the protocol. So the oracles of the
search are no more and no less than what the threads may do: `ConcurrentRuns.RunIsReferenceRun` and
`RunsHappen.EveryRunHappens`.

## What the code does otherwise than one may expect

- Ending a path in the middle of a replay keeps one more saved entry on the path and puts the end
  node below it (`Manager.ExecutionTreeManager.AddEndToPath`).
- Walking up from the end node's stack entry looks the end node up by its first slot in its parent.
  The walk gives the reversed stack exactly when no earlier slot of that node holds the end node too
  (`Manager.ExecutionTreeManager.ComputePath`); from any other entry it always does.
  `SharedEnd.WalkFindsEarlierSlot` runs the engine to a stack where it does not.
- The branches of `Coroutine::Start` for a coroutine that waits for its first transfer, and for one
  that has terminated, do not work: the order to restart meets a full channel or is lost, and a new
  thread fails its own check. Start is safe exactly when no thread was ever started or the last run
  has ended (`Handshake.StartIsSafeExactly`).
- `Coroutine::Finish` sends the order to terminate to a coroutine that waits for its first transfer
  as well as to one that has ended. It is safe exactly for the second: for the first the order meets
  a full channel, or is lost and both sides wait for each other in the join
  (`Handshake.FinishIsSafeExactly`). The unsafe states are reached by careful calls alone
  (`Handshake.UnsafeIsReached`).
- The checks that the script's thread makes when it ends a run can fail, in three ways and no others
  (`HandOff.FailsExactly`). It waits with a time limit while it asks for the lock, and takes running out
  of time there for an internal error (`HandOff.EndingCanBeLate`). Another thread may have ended the run
  with a backtrack meanwhile, which is thrown again, while nothing but another exception is expected
  (src/dsl.cpp:789, `HandOff.EndingCanFindBacktrack`). Or it was another exception, and a third thread
  has taken the end marker out, to look at it, just when the check is made that it is in the cell
  (src/dsl.cpp:790, `HandOff.EndingCanMissTheMarker`).
- Giving up a run at a node accounts for everything below it, explored or not. Without giving up
  every complete run is made exactly once; with it, every complete run is accounted for
  (`SearchSpec.SearchIsExhaustive`).
- A run that is given up because all threads have ended, after a forall node was the last thing to
  be consumed, marks that node covered as a whole. The threads that were not selected there yet are
  never tried, and the flags below it are no longer exact. A run accounts for no more than what lies
  below the end of its own path exactly when it gives up no node in this way while some branch of it
  is still uncovered (`Pruning.OwnPathsExactly`); when the oracles do not change between runs, this
  decides whether every complete run goes through the end of some run's path
  (`Pruning.RunsSufficeExactly`). `Pruning.OtherThreadIsLost` gives a script that loses a run: a forall
  over two threads, each with one step.
- This can also happen in the middle of a replay while something is left in the branch taken at the
  node. Then only the run itself is accounted for, and the flagged node becomes the last one on the
  saved path (`SearchSpec.OpenMarkStays`, `Manager.ExecutionTreeManager.EndWithSuccess`). What the next
  run does depends on the call above it. If the replay gets there, a star with no other open branch
  and a conditional take themselves for covered and backtrack; a star with another one fails the
  check that the branch it replays is not covered (src/scenario.cpp:2141); a forall node does not
  select the saved thread, so the run times out; and after the root or a transition the replay gets
  to the flagged node's own call, which is then given up as a whole or fails its check
  (src/scenario.cpp:2514). `OpenMarks.FailsExactly` says when the next run fails, and
  `OpenMarks.SearchFailsExactly` when the search does. `OpenMarks.CheckCanFail` is a search that does:
  a forall over one thread, then two stars; the second run is given up right after the forall node,
  and the third fails. It never happens to a run that stops past its replay
  (`OpenMarks.LateStopCloses`), hence not in the mode that keeps the tree
  (`SearchSpec.FreshStartNeverFails`), nor when the oracles do not change between runs
  (`ReplayModes.SteadyRunsNeverFail`).

## Model

| member | source | states |
|---|---|---|
| Scenarios.ExploreAll | src/scenario.cpp:297-397 | a new engine in the given modes, for any script and any oracles, stops after no more runs than the script has complete ones, and the paths that its stack recorded are the runs of the reference search; unless a check failed, which it does exactly when the reference search says so, the root is covered and the runs account for every root-to-leaf path, and if no run is given up each path is run exactly once |
| Scenarios.CuttingPreservesSearch | src/dsl.cpp:722-743 | two engines, one that deletes covered subtrees and one that keeps the whole tree, either both explore everything or both fail a check, and have recorded the same paths in the same order, in either replay mode and for any oracles; the first one keeps no covered node: every live node has something unexplored at or below it, and when nothing is left the live nodes are on the way of what the last run accounted for |
| Scenarios.NoCoveredNodeIsKept | src/dsl.cpp:722-743 | said of the nodes: no live node of such an engine is flagged covered, those flagged early aside, and a slot holds the end node if and only if its branch is covered |
| Scenarios.StackAndTreeReplay | src/dsl.cpp:380-392 | two engines, one that replays the stack and one that replays the tree, both explore everything without failing a check and have recorded the same paths in the same order when the oracles do not change between runs, also when runs are given up |
| RandomStars.RandomStarsPart | src/scenario.cpp:2130-2135 | with a coin that changes between runs the two replay modes make different runs |
| Pruning.OwnPathsExactly | src/dsl.cpp:826-832 | the runs account for no more than what lies below the ends of their paths, after each of the first n runs, if and only if none of them gives up a whole forall node that still has an uncovered branch when the run ends: the last node it consumed, when all threads have ended, or the node flagged early that it was about to call |
| Pruning.PrunesExactly | src/dsl.cpp:826-832 | a run does that if and only if all threads have ended, the last node it consumed is a forall, nothing is left in the branch taken there and another branch is open; or it stops right at the call of a node flagged early that has another open branch |
| Pruning.UnprunedRunsSuffice | src/dsl.cpp:826-832 | if no run of a search that ends does that, every complete run goes through the end of some run's path |
| Pruning.RunsSufficeExactly | src/dsl.cpp:826-832 | and when the oracles do not change between runs this is an if and only if: a run that does it loses a complete run for good |
| Pruning.OtherThreadIsLost | src/scenario.cpp:538-541 | a forall over two threads whose first run times out with all threads ended: the search is over after one run, and the other thread's run is never made |
| SharedEnd.WalkFindsEarlierSlot | src/dsl.cpp:650-673 | the second run of a star, whose first branch already holds the end node: the walk from the end entry does not give the reversed stack |
| Scenarios.Scenario.Explore | src/scenario.cpp:297-397 | the loop stops after the runs of the reference search, and the paths recorded are exactly those; the root is covered then, unless the reference search fails a check there; an engine that deletes covered subtrees keeps no covered node; no live node was freed, and every node of the tree at the start is live or freed |
| Scenarios.Scenario.RunOnce | src/scenario.cpp:418-442 | one restart, run and backtrack is one step of the reference search (same path recorded, same part explored, same answers to replay, same early flag), and says truly whether anything is left; it fails a check exactly when the reference run does; no covered node is kept if there was none before and covered subtrees are deleted, and nodes that are dropped are freed |
| Scenarios.Scenario.RunTestCase | src/scenario.cpp:494-575 | a run stops where the reference run does and for the same reason: it is complete, or given up, or backtracks at a node that takes itself for covered, or fails a check |
| Scenarios.Scenario.GetOrCreateNode | src/scenario.cpp:2095-2124 | the next node is the saved one, the one in the tree, or a new one; it is flagged covered exactly when it is the last one of the saved path and was flagged early |
| Scenarios.Scenario.DSLChoice | src/scenario.cpp:2068-2151 | replays the saved answer, or else goes to an uncovered branch: true if both are open, or where the random bit says; right above a node that was flagged early it backtracks if its other branch is covered, and else fails the check of the replayed branch |
| Scenarios.Scenario.DSLConditional | src/scenario.cpp:2155-2229 | takes its one branch, and in a deterministic script the replay check never fails; right above a node that was flagged early it backtracks |
| Scenarios.Scenario.DSLTransition | src/scenario.cpp:2305-2368 | one consumed transition adds one entry to the path |
| Scenarios.Scenario.DSLForallThread | src/scenario.cpp:2460-2562 | the forall goes to the saved thread, or else to the first arriving one of the scope that the predicate accepts and whose branch is not covered, and passes the check that it was consumed by it; right above a node that was flagged early no thread takes it, and the flagged node's own call fails its check |
| Scenarios.Scenario.EvalSelectThread | src/scenario.cpp:1435-1456 | an arriving thread takes the node exactly when it is in scope, is accepted by the node's predicate, is the saved one if there is one, and its branch is not covered; otherwise the node only gains a slot |
| Scenarios.Scenario.Call | src/scenario.cpp:2068-2562 | whichever call the script makes, also right above a flagged node, it answers, backtracks, finds no thread or fails a check as the reference run does |
| SearchSpec.SearchIsExhaustive | src/dsl.cpp:677-748 | a search that ended accounts for every complete run, at positions each of which was new, and without giving up each complete run was made exactly once |
| SearchSpec.SearchStops | src/scenario.cpp:297-397 | the search stops after at most as many runs as the script has complete runs, whatever the oracles do: everything is accounted for, or the next run fails a check |
| SearchSpec.AllNewBound | src/dsl.cpp:684-747 | runs that each reach something new number at most the complete runs, and then cover the root |
| SearchSpec.MoreThrough | src/dsl.cpp:684-747 | a run that reaches something new leaves strictly fewer complete runs unaccounted for |
| SearchSpec.AdvanceKeeps | src/dsl.cpp:677-748 | every further run that fails no check reaches something unexplored, and the next replay leads to something unexplored |
| SearchSpec.OpenMarkStays | src/dsl.cpp:826-832 | a run that flags a forall node in the branch of which something is left accounts for its own path alone, and that node is the last one on the next saved path |
| SearchSpec.FreshStartNeverFails | src/dsl.cpp:380-392 | in the mode that keeps the tree no run fails a check |
| OpenMarks.FailsExactly | src/scenario.cpp:2130-2141 | with a node flagged early on the saved path the next run fails a check if and only if its replay is not given up before it gets to the call above that node and this is a star with another open branch, or before it gets to the call of that node, and this comes after the root or a transition; with none it fails no check |
| OpenMarks.SearchFailsExactly | src/scenario.cpp:2514-2527 | a search that has made n runs and is not over fails a check in the next run if and only if the run before was given up with all threads ended in mid-replay, right after a forall node with something left in the branch taken there, and the next replay meets the flag in that way |
| OpenMarks.LateStopCloses | src/dsl.cpp:826-832 | a run that stops past its replay leaves nothing to explore in the branch it took last, so that no flag is set early |
| OpenMarks.CheckCanFail | src/scenario.cpp:2514-2527 | a forall over one thread, then two stars: the second run is given up right after the forall node, with all threads ended, and the third run fails the check |
| ReplayModes.StackReplayAgreesWithTreeReplay | src/dsl.cpp:612-621 | after any number of runs the saved answers are the ones a fresh start would choose, and both modes have made the same runs, when the oracles do not change between runs |
| ReplayModes.ModesEndTogether | src/dsl.cpp:380-392 | then both modes also end after the same number of runs |
| ReplayModes.SteadyRunsNeverFail | src/scenario.cpp:2514-2527 | then no run fails a check in either mode |
| ReplayModes.ChooseStable | src/scenario.cpp:2121-2139 | an answer that was chosen once is chosen again for as long as its branch is uncovered |
| SearchSpec.ChooseUncovered | src/scenario.cpp:2125-2141 | at an uncovered node the chosen branch is uncovered |
| TreeStates.Tree.FlagsAreExact | src/dsl.cpp:172-190 | a node is flagged covered if and only if every complete run through it is explored or given up; a missing child is unexplored, the end node stands for something explored; except at or below a forall node that was given up as a whole, which is covered |
| TreeStates.Tree.OneSlotEach | include/dsl.h:134-185 | every live node but the root occupies exactly one child slot, that of its parent pointer |
| TreeStates.Tree.NothingDangles | src/dsl.cpp:727-743 | slots, parent pointers and stack entries never lead to a deleted node, and consecutive stack entries are parent and child |
| TreeStates.Tree.LeanMeans | src/dsl.cpp:722-743 | if every live node has something unexplored at or below it, none is flagged, and a slot has the end node exactly when its branch is covered |
| TreeStates.Tree.StaysLean | src/dsl.cpp:728-740 | this stays so if all that a run drops is what lies at or below the topmost covered node of its path |
| TreeStates.Tree.StackIsOpen | src/dsl.cpp:684-747 | while anything is left no node on the stack is covered, and the tip slot is empty or holds an uncovered node |
| TreeStates.Tree.KidsTell | src/dsl.cpp:172-190 | once the flags below are exact, flag and immediate children decide whether a node is covered |
| TreeStates.Tree.ForallNeedsEveryThread | src/dsl.cpp:1019-1030 | a forall node's children say it is covered exactly when every scope variable has its own slot with a covered child |
| TreeStates.Tree.AddNodeValid | src/dsl.cpp:546-584 | adding a node to the path keeps every invariant of tree, stack and coverage |
| TreeStates.Tree.EndTipEnds | src/dsl.cpp:551-580 | putting the end node at the tip keeps the tree and the stack well shaped and completes the path |
| TreeStates.Tree.MarkedEnds | src/dsl.cpp:826-832 | flagging the last consumed forall node of an ended path covered as a whole leaves an ended path, also when the path was ended in the middle of a replay, if nothing is left in the branch taken there: the flags elsewhere stay right (the other case is MarkCovered) |
| TreeStates.Tree.FlagStaysOnTop | src/dsl.cpp:684-747 | if something is left in the branch taken there then backtracking right above the end node leaves the flagged node as the last one on the saved path |
| TreeStates.Tree.PropagateStep | src/dsl.cpp:688-702 | one step up: flag and children of the next stack node tell whether it is covered, and computing its flag keeps everything else |
| TreeStates.Tree.Backtracks | src/dsl.cpp:684-747 | backtracking keeps the stack entries above the lowest uncovered position, clears no flag, and covers the root exactly when nothing is left; with deletion exactly the nodes at or below the topmost covered one of the path are gone, and without it none is |
| TreeStates.Tree.BacktrackedValid | src/dsl.cpp:722-743 | cutting the covered subtree and truncating the stack keeps every invariant |
| TreeStates.Tree.GrownValid | include/dsl.h:690-704 | a new slot for a thread variable keeps every invariant |
| ExecutionTrees.ExecutionTree.ComputeCoverage | src/dsl.cpp:172-190 | a flag is computed from the immediate children, and a flag that is set is never cleared |
| ExecutionTrees.ExecutionTree.BaseCoverage | src/dsl.cpp:173-186 | covered if and only if no child is missing and all are covered |
| ExecutionTrees.ExecutionTree.IndexOf | src/dsl.cpp:131-138 | the first slot that holds the node, or none |
| ExecutionTrees.ExecutionTree.AddOrGetChildIndex | include/dsl.h:690-704 | the tables stay inverse to each other and as long as the child list; a known variable changes nothing |
| ExecutionTrees.ExecutionTree.CheckAndSelectThread | include/dsl.h:640-673 | a thread is selected if and only if it is in scope, acceptable, the saved one if there is one, and its branch is not covered |
| ExecutionTrees.ChildLoc.Set | include/dsl.h:139-145 | the slot holds the node and the node points back, and nothing else of the two changes |
| Manager.ExecutionTreeManager.constructor | src/dsl.cpp:349-355 | a new engine satisfies all invariants, with the root and one empty slot; nothing is covered and nothing freed |
| Manager.ExecutionTreeManager.Restart | src/dsl.cpp:359-392 | the root is on the path; the saved answers are kept, or forgotten in the mode that keeps the tree |
| Manager.ExecutionTreeManager.AddToNodeStack | src/dsl.cpp:594-608 | pushes a new entry at the end, or steps over the same saved one |
| Manager.ExecutionTreeManager.TruncateNodeStack | src/dsl.cpp:636-646 | keeps exactly the first entries and moves the replay position to their end |
| Manager.ExecutionTreeManager.GetNextNodeInStack | src/dsl.cpp:612-621 | the saved entry, or what hangs from the tip: an uncovered node of the current position, or nothing |
| Manager.ExecutionTreeManager.AddNodeToPath | src/dsl.cpp:546-590 | one more answer is on the path, with every invariant kept |
| Manager.ExecutionTreeManager.AddEndToPath | src/dsl.cpp:551-584 | ending anywhere, also mid-replay, keeps the replayed prefix and the next saved entry and gives a complete path; exactly the nodes at or below the end of that path are freed |
| Manager.ExecutionTreeManager.EndedIsComplete | src/dsl.cpp:753-765 | the program's own check of a complete path holds after every ending |
| Manager.ExecutionTreeManager.Delete | src/dsl.cpp:89-95 | deleting a subtree frees exactly the nodes at or below it, none of which was freed before, and not the end node |
| Manager.ExecutionTreeManager.PropagateCoverage | src/dsl.cpp:688-702 | coverage is propagated up to the lowest uncovered node, after which all flags are exact; below a node that was flagged early it stops at once, without looking at that flag |
| Manager.ExecutionTreeManager.CheckPropagated | src/dsl.cpp:701-726 | the checks after the propagation hold, also when a flag was set early: what is to be cut off is covered, the node above it is not, and only a covered root is cut off |
| Manager.ExecutionTreeManager.CutSubtree | src/dsl.cpp:728-739 | the largest covered subtree is replaced by the end node and freed: the nodes freed are those that the tree loses |
| Manager.ExecutionTreeManager.DoBacktrack | src/dsl.cpp:677-748 | the stack is cut right above the lowest uncovered node; when covered subtrees are to be deleted, and only then, exactly the nodes at or below the covered one next to it on the path are gone from the tree, and freed; the result is false exactly when the root is covered; a node that was flagged early is the last one on the saved path |
| Manager.ExecutionTreeManager.MarkCovered | src/dsl.cpp:826-832 | the marking of a last forall node, whether or not something is left in the branch taken there: either the whole of it is given up, or its flag is early and what is explored does not change |
| Manager.ExecutionTreeManager.AbsorbFlags | src/dsl.cpp:551-580 | early flags that a run did not fail on are right once its path has been ended: each of these nodes is deleted, or covered by then, or given up as a whole |
| Manager.ExecutionTreeManager.EndWithSuccess | src/dsl.cpp:847-902 | one more path is recorded, what is explored grows by exactly what the run accounts for (the whole of a last forall node when all threads have ended and nothing is left in the branch taken there), and the next replay leads to the lowest uncovered position; if something is left there, and only then, the node is flagged early and is the last one of that replay; the tree loses exactly what hung where the path was ended and, with deletion while anything is left, the covered subtree, and those nodes are freed |
| Manager.ExecutionTreeManager.ComputePath | src/dsl.cpp:650-673 | the walk up by parent pointers is the reversed stack prefix; from the end entry exactly when no earlier slot holds the end node |
| HandOff.LockSafety | src/dsl.cpp:429-542 | in every state of every run, until a check fails: at most one thread holds the cell, the owner is nobody or that thread |
| HandOff.FailsExactly | src/dsl.cpp:776-792 | a check fails if and only if the script's thread, in order to end the run, asks for the lock and runs out of time, or finds that another thread has ended it with a backtrack, or with another exception while the end marker is out of the cell |
| HandOff.EndingCanBeLate | src/dsl.cpp:776-790 | the first happens: another thread has the lock all the while |
| HandOff.EndingCanFindBacktrack | src/dsl.cpp:407-422 | the second happens: a thread raises a backtrack, and ends the run, before the script does |
| HandOff.EndingCanMissTheMarker | src/dsl.cpp:786-791 | the third happens: a third thread looks at the end marker at that moment |
| HandOff.FoundEndIsExplained | src/dsl.cpp:411-416 | an end marker that the script's thread finds in the cell is on the path, and was put there with an exception recorded |
| HandOff.RecordedForGood | include/dsl.h:213-218 | once the end node records an exception it records that one in every later state of the run |
| HandOff.EndIsForever | src/dsl.cpp:455-459 | once the content is the end marker it stays so until the next restart, and the path does not change |
| HandOff.EndReleases | src/scenario.cpp:1866-1873 | and a thread under test that then takes something out of the cell has the end marker, and is outside the protocol after two steps of its own |
| HandOff.LeavesForAReason | src/dsl.cpp:429-542 | a thread goes outside the protocol only when it has released what it acquired, or has found that the run has ended; the script's thread also when it runs out of time |
| HandOff.NodeLeaves | src/scenario.cpp:1870-1928 | a submitted node leaves the cell only by one thread under test consuming it, or by the run ending |
| HandOff.ConsumedExactlyOnce | src/scenario.cpp:2334-2368 | when the call that submitted a node returns normally, exactly that node was consumed since, in one step of one thread |
| HandOff.PathIsScriptOrder | src/scenario.cpp:2360-2366 | whenever a call returns normally the path holds exactly the nodes the script asked for, in its order |
| HandOff.PathIsRequested | src/scenario.cpp:2353-2366 | namely the nodes that the script's thread decided to submit or to add, counted from the history of the run, in that order |
| HandOff.NobodyStranded | src/dsl.cpp:484-499 | tokens and threads in passing equal the releases, so after the first release the gate is open or about to be opened |
| HandOff.EveryReleaseSignals | src/dsl.cpp:539 | every release that has put its content into the cell, counted from the history, has opened the gate once or is about to |
| HandOff.CanStep | src/dsl.cpp:429-542 | a thread inside the protocol can always step, except at a closed gate, or where one of these checks fails |
| HandOff.StepKeeps | src/dsl.cpp:429-542 | every step of every thread keeps the invariant, and only a commit or the ending changes the content |
| TraceMeaning.TraceHasMeaning | src/scenario.cpp:1853-1951 | for any arrival order the taken events are one segment per consumed step, with the predicates and constraints as promised, and every thread's events in order |
| TraceMeaning.MeaningIsReachable | src/scenario.cpp:1853-1951 | conversely, every such sequence of events is what some order of arrivals leads to |
| TraceMeaning.TakenInOrderOfArrival | src/scenario.cpp:1853-1951 | the threads of the log are a subsequence of the arrivals, and each event is the one added at the arrival that it belongs to |
| TraceMeaning.LogOnlyGrows | src/scenario.cpp:1853-1951 | more arrivals extend the log and the consumed steps |
| TraceMeaning.EachArrivalCounts | src/scenario.cpp:1853-1951 | one more arrival does to the segments what the next event of that thread does to the step that is submitted, or nothing when there is no such step or event |
| TraceMeaning.OfferedNext | src/scenario.cpp:1533-1545 | the event that closed a run-until step was not taken and is offered to the next step |
| TraceMeaning.Scenario.EvalTransition | src/scenario.cpp:1492-1556 | which events a step takes and on which it is consumed |
| TraceMeaning.Scenario.Run | src/scenario.cpp:1853-1951 | the state after any order of arrivals is that of the pure definition |
| Rendezvous.ReceivedInOrder | src/ipc.cpp:234-267 | events are received in exactly the order in which senders were admitted; the two semaphores and the senders past the first wait never exceed one |
| Rendezvous.ReceivedIsAsked | src/ipc.cpp:234-267 | the i-th received event is the one that the i-th admitted sender was asked to send, and at most one more is on its way |
| Rendezvous.SentIsReceived | src/ipc.cpp:252-267 | a send that has returned has had exactly its event admitted since it began, which is received there or is next in the buffer |
| Rendezvous.NeverOverwritten | src/ipc.cpp:252-267 | the buffer is filled only when everything in it before has been copied out |
| Rendezvous.StepKeeps | src/ipc.cpp:234-267 | every step keeps the single token and the order |
| Lockstep.InLockstep | remote/server.cpp:57-153 | events sent minus continues received is 1 while a thread waits and else 0, and the handled events are a prefix of the sent ones |
| Lockstep.ContinueFindsItsThread | src/ipc.cpp:371-409 | a continue always finds the thread it is for, waiting |
| Lockstep.ShadowThreadIsReady | remote/server.cpp:242-272 | the server's hand-over never meets a busy or leaving shadow thread |
| Lockstep.NotStuck | src/ipc.cpp:371-409 | while a client thread waits, some step other than registering and sending is possible |
| Lockstep.EveryContinueComes | src/ipc.cpp:371-409 | without new events only so many steps are possible, and when none is left no thread waits for its continue |
| Lockstep.ShadowThreadLeaves | remote/server.cpp:57-153 | a thread's end is its last event, and a shadow thread that handled it last is replying to it or leaving |
| Lockstep.NobodyIsLeftBehind | remote/server.cpp:57-153 | when nothing is left to deliver, every thread that has sent its end has ended and has no registered shadow thread, every other shadow thread receives, and all events are handled and answered |
| Lockstep.StepKeeps | remote/server.cpp:170-240 | every step keeps one token per waiting thread and none for the others |
| Handshake.NeverFails | src/coroutine.cpp:178-262 | over any number of rounds, as long as Start and Finish are called where they are safe, every put finds the channel empty and every take finds it full |
| Handshake.RightPartyWakes | include/channel.h:108-125 | as long as Start and Finish are called where they are safe, every signal wakes the party it is meant for, although both wait on one condition variable |
| Handshake.ReturnsAfterStarted | src/coroutine.cpp:209-222 | Start returns only after a started message that no earlier call received |
| Handshake.RunsOncePerStart | src/coroutine.cpp:265-293 | over any number of rounds of careful calls the function is run exactly once for each return of Start, after it |
| Handshake.StartReturns | src/coroutine.cpp:178-228 | a call of Start always returns: some step is possible, and each brings it closer |
| Handshake.WaitForEndSeesEnd | src/coroutine.cpp:146-175 | WaitForEnd finds its second token if and only if the run has ended, and a wait that runs out of time changes nothing |
| Handshake.StartIsSafeExactly | src/coroutine.cpp:192-207 | a call of Start is safe if and only if no thread was ever started or the last run has ended |
| Handshake.UnsafeStart | src/coroutine.cpp:192-207 | in any other state there is a run that fails a check or leaves both parties waiting |
| Handshake.FinishIsSafeExactly | src/coroutine.cpp:119-142 | sending the order to terminate is safe if and only if the last run has ended |
| Handshake.UnsafeFinish | src/coroutine.cpp:119-142 | for a coroutine that still waits there is a run that fails a check or leaves both parties waiting |
| Handshake.UnsafeIsReached | src/coroutine.cpp:192-207 | careful calls lead from the initial state to one in which neither Start nor Finish is safe |
| ReentrantMutex.MutualExclusion | src/thread.cpp:304-343 | critical sections never overlap, the owner field names the holder of the lock or nobody, and the count is the nesting depth |
| ReentrantMutex.OwnedWhileLocked | src/thread.cpp:304-343 | a thread that is out of the operations has locked as often as it has unlocked and as it is deep, counted from the calls in the history of the run; it owns the mutex, with that count, for as long as it has locked more often |
| ReentrantMutex.SectionsDoNotOverlap | src/thread.cpp:304-343 | of two threads at most one has locked more often than it has unlocked, those in a wait or in a first call of Lock aside |
| ReentrantMutex.WaitReturnsAtDepth | src/thread.cpp:439-453 | a wait entered at depth k returns with the thread as the owner at depth k |
| ReentrantMutex.SleepLetsOthersIn | src/thread.cpp:347-378 | falling asleep at any depth leaves the mutex free for any other thread |
| ReentrantMutex.StepKeeps | src/thread.cpp:304-378 | every interleaved step, each one read or write of one field, keeps the invariant |
| Wire.RoundTrip | include/ipc.h:89-119 | decoding an encoded event returns every transmitted field and leaves exactly the rest of the stream |
| Wire.ArrivesByKind | include/interface.h:58-78 | for each kind, by its number: the fields that arrive, what the others are, and the length of the encoding |
| Wire.Layout | include/ipc.h:89-119 | kind and thread come first, with 4 bytes each, and then the body |
| Wire.BodyLayout | include/ipc.h:89-119 | for each kind, by its number: the place of each field in the body |
| Wire.SelfDelimiting | include/ipc.h:89-119 | a stream begins with at most one event |
| Wire.StreamRoundTrip | include/ipc.h:121-147 | any sequence of sends comes back as the same sequence of events |
| Wire.CopiesKeepEvent | include/interface.h:146-187 | copying a received event through two buffers keeps every transmitted field, whatever they held before |
| Wire.CopiedByKind | include/interface.h:146-187 | for each kind, by its number: the fields that a copy takes over, while the rest is left |
| Wire.SendAndReceive | include/ipc.h:121-147 | sending through the pipe and receiving from it, with partial writes and reads, returns the same sequence |
| Wire.EventBuffer.Assign | include/interface.h:146-187 | assignment copies exactly the fields of the event's kind |
| Wire.EventPipe.Send | include/ipc.h:121-131 | appends the encoding and clears the buffer |
| Wire.EventPipe.Recv | include/ipc.h:133-147 | reads exactly one event off the front of the stream |
| Wire.Fifo.Read | src/util.cpp:203-211 | the bytes asked for, in whatever pieces they come |
| ConcurrentRuns.RunIsReferenceRun | src/scenario.cpp:1853-1951 | for any number of threads and any interleaving of their steps with those of the script's thread: the answers on the path are those of the reference run, with the oracles that the run shows, and if the run stops the reference run stops at the same place for the same reason |
| ConcurrentRuns.StepKeeps | src/scenario.cpp:2334-2368 | every step of every thread keeps the answers on the path those of the reference run, and the node in the cell that of the present call |
| RunsHappen.EveryRunHappens | src/scenario.cpp:494-575 | conversely, for any oracles some interleaving makes the next run of the reference search and ends it |
| ConcurrentSearch.SearchIsReference | src/scenario.cpp:297-397 | a search in which each run is any interleaving of its threads, starting from what the runs before have left, is the reference search for the oracles that its runs show |
| ConcurrentSearch.SearchIsBounded | src/scenario.cpp:297-397 | so it has no more runs than the script has complete ones, and once nothing is left every complete run is accounted for |
| ConcurrentSearch.ExploreAgain | src/scenario.cpp:297-397 | and the engine with its tree and stack, in either mode, driven by these oracles, explores everything and records the paths of these runs in the same order |

## Left out

- Instrumentation, signals, thread interposition, pipe opening, dot graphs, statistics, timers and
  configuration parsing are not part of this model.
- The marking of ending branches by source line and the exists-thread node prune on purpose;
  exhaustiveness is for the flag off and for scripts without exists nodes.
- A forall node without a scope makes a fresh variable per call; the model has a non-empty scope of
  variables bound to distinct threads. Unless the run is given up at the node, each of them reaches
  it at some time and is accepted; which threads arrive after the one that takes the node makes no
  difference.
- Scenarios.Scenario.DSLTransition: the submission of the transition and its consumption are one call
  here, and no thread waits; that any interleaving of submission and consumption leads to the same
  answers is `ConcurrentRuns.RunIsReferenceRun`, where the tree is not a heap.
- Which thread is bound to which variable of a scope is left open in `ConcurrentRuns`: any thread under
  test may come to a forall node for any of them.
- A thread under test checks that it does not get the node again that it has just given back
  (src/scenario.cpp:1878), which holds as long as its condition variable has no spurious wake-ups; and a
  star checks its flag against its two branches after computing it (include/dsl.h:393-394). Neither
  check is part of this model.
- The program's checks are compiled in (`SAFE_ASSERT`, common.mk:17), and a failed one ends the
  program; what a build without them does after a check that fails is not part of this model.
- Predicates and constraints are arbitrary functions of the event, fixed for a step; the stateful
  first-event constraint and transition assertions are left out.
- The forced lock is taken only when no other thread is inside the protocol, which is what the code
  assumes. The script's thread may time out at any moment at which it does not hold the content.
- Waiting for a node on its condition variable between two offers is a thread that may arrive at any
  time.
- The backtracking that the script's thread does while it holds the lock is one step in `HandOff`;
  `Manager` models what it does to tree and stack.
- An exception other than a backtrack ends the whole search; the search model has none. Of the
  exceptions that the end node records `HandOff` has the first, and whether it is a backtrack. The
  limits on the number of runs and the mode that stops at the first successful run are left out.
- Lockstep: starting and ending the test, the broadcast of the internal thread end and the explicit
  thread-start event are left out; the hand-over into a shadow thread is one step, which `Rendezvous`
  refines into its semaphore operations.
- Handshake: cancelling a running thread is left out, and there are no spurious wake-ups.
- Wire: source locations, which are pointers, are not sent and not modelled; addresses have 64 bits.
- Memory is sequentially consistent, which the code asks for.
