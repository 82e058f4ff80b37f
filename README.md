# TREE-SEARCH, modelled and verified in Dafny

This project models the generic tree-search engine of the AIMA Java code base
(`aima.core.search.basic.TreeSearch`). The engine is the textbook
TREE-SEARCH loop. A fresh frontier queue is seeded with the root node for the
problem's initial state, at path cost 0. Then, for as long as the search
controller says it is executing, the loop does three things. It fails if the
frontier is empty. It removes one node and goal-tests it, and returns the
controller's solution for that node if it is a goal. Otherwise it adds one
child per legal action of the node's state. When the controller stops, the
search returns the controller's failure value.

The model has five modules, plus a small `Wrappers` module holding `Option`:

- `SearchApi` (`search_api.dfy`) holds the collaborators as values.
  - `Problem`: initial state, actions, transition result and goal test, as function fields.
  - `Node`: an immutable record with a parent reference, so parent chains are acyclic by construction.
  - `NodeFactory`: two function fields. Its ghost `Valid()` is the construction contract: a root has no parent and no action, and a child records its parent, its action and the resulting state.
  - `SearchController`: the execution flag, the goal test on nodes, and `Solution`/`Failure`.
  - `ProblemGoalController`: a controller whose goal test asks the problem whether the node's state is a goal. It stands for any controller that delegates the goal test to the problem, not for a particular controller class.
- `TreeSearchSpec` (`tree_search_spec.dfy`) defines what a run does. `Run` returns the nodes removed, in order, and how the run ended (cancelled, exhausted, or goal found). The lemmas state what the search promises about a run.
- `BasicSearch` (`tree_search.dfy`) is the imperative model.
  - The class `TreeSearch` has the three collaborator fields, the constructor, the setters and `Apply`.
  - `Apply` runs a `while` loop over a FIFO queue object that it allocates itself. It is proved to return exactly `TreeSearchResult`.
  - `Apply` has no `modifies` clause, so it provably changes no collaborator and no other existing object.
  - `Apply` reads the collaborator fields once, at the start. Its collaborators are pure values and cannot call back into the search object.
- `FiniteTrees` (`finite_trees.dfy`) counts the tree below a frontier level by level. It proves that on a finite tree, with enough polls that say executing, the search is never cancelled and finds a goal exactly when the tree holds one.
- `Scenarios` (`scenarios.dfy`) holds small concrete searches. One is a four-state tree with goal D and then the unreachable goal Z. The other is a two-state cycle.

Modelling choices:

- **The execution flag is a schedule of answers.** `executing[k]` is the answer to the k-th poll. Every poll past the end of the schedule answers "not executing". The loop polls once per iteration, so every run ends without a fuel bound. Any finite run of the real search is one of these runs, given a long enough schedule. Every call of `Apply` starts the schedule again at poll 0, so two calls on one `TreeSearch` with the same problem return the same result. A real controller whose flag keeps its state between calls (once cancelled, cancelled for good) is modelled by giving each call its own schedule.
- **The result is tagged.** It is `Solution(actions)` or `Failure`, so an empty solution (the root is a goal) cannot be mistaken for failure. The controller's solution for a node is the list of actions along its parent chain, from the root down.
- **The factory is abstract.** `Apply` only sees the construction contract, never a particular factory. `UnitCostNodeFactory` (each child costs one more than its parent) is used only as the subset type's witness and in the scenarios.

## Model

| member | source | states |
|---|---|---|
| `BasicSearch.TreeSearch.constructor` | core/src/main/java/aima/core/search/basic/TreeSearch.java:43-47 | the three collaborators given are the ones stored |
| `BasicSearch.TreeSearch.SetSearchController` | core/src/main/java/aima/core/search/basic/TreeSearch.java:71-73 | stores the controller; only that field may change and the other two collaborators keep their values |
| `BasicSearch.TreeSearch.SetNodeFactory` | core/src/main/java/aima/core/search/basic/TreeSearch.java:75-77 | stores the node factory; the other two collaborators keep their values |
| `BasicSearch.TreeSearch.SetFrontierSupplier` | core/src/main/java/aima/core/search/basic/TreeSearch.java:79-81 | stores the frontier supplier; the other two collaborators keep their values |
| `BasicSearch.FrontierSupplier.Get` | core/src/main/java/aima/core/search/basic/TreeSearch.java:40 | the default supplier gives a new, empty first-in first-out queue |
| `BasicSearch.TreeSearch.AddChildren` | core/src/main/java/aima/core/search/basic/TreeSearch.java:64-66 | the for-loop appends to the back of the frontier exactly the node's children, one per action, in enumeration order; with the head already removed, one iteration grows the frontier by the number of actions minus one |
| `BasicSearch.TreeSearch.Apply` | core/src/main/java/aima/core/search/basic/TreeSearch.java:51-69 | the loop returns exactly the result of `TreeSearchResult` (the run from the root frontier at poll 0); it modifies no object that existed before the call |
| `TreeSearchSpec.InitialFrontier` | core/src/main/java/aima/core/search/basic/TreeSearch.java:53-54 | before the first iteration the frontier is exactly one node: the root for the initial state, with no parent, no action and path cost 0 |
| `TreeSearchSpec.Expand` | core/src/main/java/aima/core/search/basic/TreeSearch.java:64-65 | one child per legal action, in enumeration order; child i has the expanded node as parent, action i, and the state that action leads to |
| `TreeSearchSpec.RunUnfold` | core/src/main/java/aima/core/search/basic/TreeSearch.java:56-66 | an executing iteration on a non-goal head removes that head and continues from the rest of the frontier followed by its children, with the same ending |
| `TreeSearchSpec.IterationShiftsTrace` | core/src/main/java/aima/core/search/basic/TreeSearch.java:60-66 | the loop's bookkeeping for one expanding iteration: moving the removed head from the rest of the run to the nodes removed so far changes neither the whole sequence of removed nodes nor the ending |
| `TreeSearchSpec.RunFacts` | core/src/main/java/aima/core/search/basic/TreeSearch.java:56-62 | every removal follows a poll that said executing; a cancelled run ends at a poll that said not executing, and an exhausted run at one that said executing; the first node removed is the frontier's head; each removed node is goal-tested, and only the last can pass, in which case it is the goal found |
| `TreeSearchSpec.StopEndsRun` | core/src/main/java/aima/core/search/basic/TreeSearch.java:56-68 | a poll that says not executing ends the run at once with the failure value, removing nothing further |
| `TreeSearchSpec.CancelledBeforeStart` | core/src/main/java/aima/core/search/basic/TreeSearch.java:56-68 | a controller stopped before the first poll gives failure, and no node is removed |
| `TreeSearchSpec.EmptyFrontierFails` | core/src/main/java/aima/core/search/basic/TreeSearch.java:58 | an executing iteration that finds the frontier empty ends the run with the failure value |
| `TreeSearchSpec.FailsIffNoGoalRemoved` | core/src/main/java/aima/core/search/basic/TreeSearch.java:56-68 | the search fails if and only if no removed node passes the goal test; otherwise the result is the solution for the goal node, which was removed |
| `TreeSearchSpec.RootGoal` | core/src/main/java/aima/core/search/basic/TreeSearch.java:60-62 | the goal test happens when a node is removed: if the root is a goal, it is the only node removed, no child is built, and the result is the empty solution, which is not failure |
| `TreeSearchSpec.RemovedInInsertionOrder` | core/src/main/java/aima/core/search/basic/TreeSearch.java:53-66 | FIFO order: the removed nodes are a prefix of the inserted nodes (the starting frontier, then each removed node's children in turn), with nothing skipped or deduplicated; if the frontier runs dry, every inserted node was removed |
| `TreeSearchSpec.ExpansionKeepsLayers` | core/src/main/java/aima/core/search/basic/TreeSearch.java:60-66 | removing the head and appending its children keeps frontier depths non-decreasing and within one level, and no shallower than the removed node |
| `TreeSearchSpec.RemovedBreadthFirst` | core/src/main/java/aima/core/search/basic/TreeSearch.java:56-67 | from a layered frontier, nodes are removed in order of non-decreasing depth, none shallower than the first |
| `TreeSearchSpec.SearchIsBreadthFirst` | core/src/main/java/aima/core/search/basic/TreeSearch.java:51-69 | with the default FIFO frontier, a whole search removes nodes in breadth-first order |
| `TreeSearchSpec.RemovedFromRoot` | core/src/main/java/aima/core/search/basic/TreeSearch.java:54-65 | every removed node is well formed, consistent with the problem's transitions, and hangs below the root for the initial state |
| `TreeSearchSpec.SolutionIsSound` | core/src/main/java/aima/core/search/basic/TreeSearch.java:62 | a solution is the path of a removed node that passed the goal test; it has one action per ancestor, and replaying it from the initial state reaches that node's state |
| `TreeSearchSpec.SolutionReachesGoal` | core/src/main/java/aima/core/search/basic/TreeSearch.java:62 | with a controller that asks the problem's goal test, replaying a solution from the initial state ends in a goal state |
| `FiniteTrees.ExpansionRemovesOne` | core/src/main/java/aima/core/search/basic/TreeSearch.java:60-66 | on a finite tree, one expanding iteration removes exactly the head from the tree below the frontier, and the tree below the new frontier is no higher |
| `FiniteTrees.FiniteTreeRun` | core/src/main/java/aima/core/search/basic/TreeSearch.java:56-68 | when nothing lies h levels below the frontier and the controller says executing to one poll more than the tree has nodes, the run is not cancelled, removes only nodes of that tree, and finds a goal if and only if some node of that tree passes the goal test |
| `FiniteTrees.FiniteTreeSearch` | core/src/main/java/aima/core/search/basic/TreeSearch.java:51-69 | on a finite tree with enough polls, the search returns a solution if and only if some node of the tree below the root passes the goal test; otherwise it fails because the frontier ran dry, not because it was stopped |
| `SearchApi.PathActions` | core/src/main/java/aima/core/search/basic/TreeSearch.java:62 | the solution path of a well-formed node has exactly as many actions as the node has ancestors |
| `SearchApi.SearchController.Solution` | core/src/main/java/aima/core/search/basic/TreeSearch.java:62 | a solution is never the failure value, and its length is the goal node's depth |
| `SearchApi.RootOf` | core/src/main/java/aima/core/search/basic/TreeSearch.java:54-65 | following parent references always ends at a node with no parent |
| `SearchApi.ChildKeepsChain` | core/src/main/java/aima/core/search/basic/TreeSearch.java:65 | a child built under the factory contract is one level deeper, shares its parent's root, and extends the parent's path by its action |
| `SearchApi.PathReplaysToState` | core/src/main/java/aima/core/search/basic/TreeSearch.java:62-65 | replaying a consistent node's path from its root's state reaches the node's state |
| `Scenarios.BreadthFirstFindsD` | core/src/main/java/aima/core/search/basic/TreeSearch.java:51-69 | with moves A to B, B to C, B to D and goal D, and any schedule whose first four polls say executing, whatever it answers after that, the search removes A, B, C, D and returns [A to B, B to D] |
| `Scenarios.UnreachableGoalFails` | core/src/main/java/aima/core/search/basic/TreeSearch.java:58 | on the same tree with the unreachable goal Z, all four nodes are removed, the frontier runs dry, and the result is failure |
| `Scenarios.TreeIsFinite` | core/src/main/java/aima/core/search/basic/TreeSearch.java:64-66 | the example tree has nothing three levels below A and holds exactly the nodes A, B, C, D, so it meets the finite-tree premise with five polls |
| `Scenarios.CycleRevisitsState` | core/src/main/java/aima/core/search/basic/TreeSearch.java:60-66 | on the cycle A to B to A, the state A is removed twice, as two different nodes, because tree search keeps no record of visited states |

## Left out

- The zero-argument constructor (TreeSearch.java:39-41) is not modelled. It installs `BasicSearchController`, `BasicNodeFactory` and `LinkedList::new`; the classes `BasicSearchController` and `BasicNodeFactory` are not part of this model (`ProblemGoalController` and `UnitCostNodeFactory` are stand-ins with the documented behaviour, not models of them). The FIFO discipline it selects is `FrontierSupplier.LinkedListSupplier`.
- Cancellation from another thread is not modelled as concurrency. The execution flag is a fixed schedule of poll answers that the controller carries. A run in which the controller never stops is covered only through its finite prefixes.
- A setter called while `Apply` runs, re-entrantly or from another thread, is not modelled. In the source it takes effect at the next use of the field: the next poll or goal test for the controller (TreeSearch.java:56-68), the next child for the node factory (TreeSearch.java:65).
- Frontier disciplines other than FIFO (LIFO, priority queues) are left out. Only the default linked-list queue is modelled.
- Path-cost arithmetic belongs to the node factory, which is not part of this model. The factory contract fixes the root's cost (0, from TreeSearch.java:54) and leaves each child's cost open.
- Exceptions thrown by collaborators, Java generics and the `Supplier` indirection are left out.
- Termination on an infinite tree is not promised: with no reachable goal the search there runs for as long as the controller says executing. Termination and completeness are proved only for finite trees (`FiniteTrees.FiniteTreeSearch`).
- BasicSearch.FifoQueue.Remove requires a non-empty queue. A linked list throws on an empty `remove`, but the search only calls it after finding the frontier non-empty.
