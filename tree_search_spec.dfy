/**
 * What one run of TREE-SEARCH does, as functions: the nodes it removes from
 * a FIFO frontier, in order, and how it ends. The loop in
 * BasicSearch.TreeSearch.Apply is proved to compute exactly this, and the
 * lemmas here state what the search promises about it.
 */
module TreeSearchSpec {
  import opened Wrappers
  import opened SearchApi

  /** The children of `n`: one per legal action of its state, in enumeration order. */
  function Expand<A(!new), S(!new)>(problem: Problem<A, S>, factory: NodeFactory<A, S>, n: Node<A, S>)
    : (children: seq<Node<A, S>>)
    ensures |children| == |problem.actions(n.state)|
    ensures factory.Valid() ==>
      forall i :: 0 <= i < |children| ==> ChildOf(children[i], problem, n, problem.actions(n.state)[i])
  {
    var actions := problem.actions(n.state);
    seq(|actions|, i requires 0 <= i < |actions| => factory.newChildNode(problem, n, actions[i]))
  }

  /** How a run of the loop ends. */
  datatype Ending<A, S> = Cancelled | Exhausted | GoalFound(goal: Node<A, S>)

  /** The nodes a run removes from the frontier, in removal order, and how it ends. */
  datatype Trace<A, S> = Trace(removed: seq<Node<A, S>>, ending: Ending<A, S>)

  /**
   * The loop run from a given frontier, when the execution flag has already
   * been polled `k` times. Each iteration polls the flag once; a stopped
   * controller ends the run as Cancelled and an empty frontier as Exhausted;
   * otherwise the head of the frontier is removed and goal-tested, and if it
   * is not a goal its children go to the back of the frontier.
   */
  function Run<A(!new), S(!new)>(
    problem: Problem<A, S>, controller: SearchController<A, S>, factory: NodeFactory<A, S>,
    frontier: seq<Node<A, S>>, k: nat): Trace<A, S>
    decreases |controller.executing| - k
  {
    if !controller.IsExecuting(k) then Trace([], Cancelled)
    else if frontier == [] then Trace([], Exhausted)
    else
      var node := frontier[0];
      if controller.isGoalState(node, problem) then Trace([node], GoalFound(node))
      else
        var rest := Run(problem, controller, factory, frontier[1..] + Expand(problem, factory, node), k + 1);
        Trace([node] + rest.removed, rest.ending)
  }

  /**
   * What every run does with the execution flag and the goal test: each
   * removal follows a poll that said "executing"; a cancelled run ends at a
   * poll that said "not executing" and an exhausted one at a poll that said
   * "executing"; the first node removed is the head of the frontier; the goal
   * test is made on each removed node and only the last one can pass it, in
   * which case it is the goal the run found.
   */
  lemma {:induction false} RunFacts<A(!new), S(!new)>(
    problem: Problem<A, S>, controller: SearchController<A, S>, factory: NodeFactory<A, S>,
    frontier: seq<Node<A, S>>, k: nat)
    ensures var t := Run(problem, controller, factory, frontier, k);
      (t.removed != [] ==> frontier != [] && t.removed[0] == frontier[0]) &&
      (forall j :: k <= j < k + |t.removed| ==> controller.IsExecuting(j)) &&
      (t.ending.Cancelled? ==> !controller.IsExecuting(k + |t.removed|)) &&
      (t.ending.Exhausted? ==> controller.IsExecuting(k + |t.removed|)) &&
      (t.ending.GoalFound? ==> t.removed != [] && t.ending.goal == t.removed[|t.removed| - 1]) &&
      (forall i :: 0 <= i < |t.removed| ==>
        (controller.isGoalState(t.removed[i], problem) <==> t.ending.GoalFound? && i == |t.removed| - 1))
    decreases |controller.executing| - k
  {
    if controller.IsExecuting(k) && frontier != [] && !controller.isGoalState(frontier[0], problem) {
      var next := frontier[1..] + Expand(problem, factory, frontier[0]);
      RunFacts(problem, controller, factory, next, k + 1);
      var t := Run(problem, controller, factory, frontier, k);
      var rest := Run(problem, controller, factory, next, k + 1);
      assert t.removed == [frontier[0]] + rest.removed;
      forall i | 0 < i < |t.removed|
        ensures t.removed[i] == rest.removed[i - 1]
      {
      }
    }
  }

  /** One iteration that expands the removed node, as the loop performs it. */
  lemma RunUnfold<A(!new), S(!new)>(
    problem: Problem<A, S>, controller: SearchController<A, S>, factory: NodeFactory<A, S>,
    frontier: seq<Node<A, S>>, k: nat)
    requires controller.IsExecuting(k) && frontier != [] && !controller.isGoalState(frontier[0], problem)
    ensures var rest := Run(problem, controller, factory, frontier[1..] + Expand(problem, factory, frontier[0]), k + 1);
      Run(problem, controller, factory, frontier, k) == Trace([frontier[0]] + rest.removed, rest.ending)
  {
  }

  /**
   * One expanding iteration as the loop sees it: the nodes removed so far
   * followed by the rest of the run do not change when the head moves from
   * the rest of the run to the nodes removed so far, and neither does the
   * ending.
   */
  lemma IterationShiftsTrace<A(!new), S(!new)>(
    problem: Problem<A, S>, controller: SearchController<A, S>, factory: NodeFactory<A, S>,
    removed: seq<Node<A, S>>, node: Node<A, S>, rest: seq<Node<A, S>>, k: nat)
    requires controller.IsExecuting(k) && !controller.isGoalState(node, problem)
    ensures var before := Run(problem, controller, factory, [node] + rest, k);
      var after := Run(problem, controller, factory, rest + Expand(problem, factory, node), k + 1);
      removed + before.removed == (removed + [node]) + after.removed && before.ending == after.ending
  {
    RunUnfold(problem, controller, factory, [node] + rest, k);
    assert ([node] + rest)[1..] == rest;
  }

  /** The frontier before the first iteration: the root node for the initial state, with cost 0. */
  function InitialFrontier<A(!new), S(!new)>(problem: Problem<A, S>, factory: NodeFactory<A, S>)
    : (frontier: seq<Node<A, S>>)
    ensures factory.Valid() ==> frontier == [Node(problem.initialState, None, None, 0)]
  {
    [factory.newRootNode(problem.initialState, 0)]
  }

  /** A whole run of the search on `problem`. */
  function Search<A(!new), S(!new)>(
    problem: Problem<A, S>, controller: SearchController<A, S>, factory: NodeFactory<A, S>): Trace<A, S>
  {
    Run(problem, controller, factory, InitialFrontier(problem, factory), 0)
  }

  /** What the run returns: the controller's solution for the goal node, or its failure value. */
  function Outcome<A, S>(controller: SearchController<A, S>, t: Trace<A, S>): SearchResult<A>
  {
    match t.ending
    case GoalFound(n) => controller.Solution(n)
    case _ => controller.Failure()
  }

  /** The result of TREE-SEARCH on `problem`. */
  function TreeSearchResult<A(!new), S(!new)>(
    problem: Problem<A, S>, controller: SearchController<A, S>, factory: NodeFactory<A, S>): SearchResult<A>
  {
    Outcome(controller, Search(problem, controller, factory))
  }

  /** Every child of the given nodes, node by node, each node's children in enumeration order. */
  function ExpandAll<A(!new), S(!new)>(problem: Problem<A, S>, factory: NodeFactory<A, S>, nodes: seq<Node<A, S>>)
    : seq<Node<A, S>>
  {
    if nodes == [] then [] else Expand(problem, factory, nodes[0]) + ExpandAll(problem, factory, nodes[1..])
  }

  /**
   * A stopped controller is obeyed at once: when a poll says "not executing",
   * the run ends there with the failure value, removing and expanding nothing
   * further.
   */
  lemma StopEndsRun<A(!new), S(!new)>(
    problem: Problem<A, S>, controller: SearchController<A, S>, factory: NodeFactory<A, S>,
    frontier: seq<Node<A, S>>, k: nat)
    requires !controller.IsExecuting(k)
    ensures Run(problem, controller, factory, frontier, k) == Trace([], Cancelled)
    ensures Outcome(controller, Run(problem, controller, factory, frontier, k)) == SearchResult.Failure
  {
  }

  /** In particular a controller stopped before the first poll makes the search fail without removing any node. */
  lemma CancelledBeforeStart<A(!new), S(!new)>(
    problem: Problem<A, S>, controller: SearchController<A, S>, factory: NodeFactory<A, S>)
    requires !controller.IsExecuting(0)
    ensures Search(problem, controller, factory) == Trace([], Cancelled)
    ensures TreeSearchResult(problem, controller, factory) == SearchResult.Failure
  {
    StopEndsRun(problem, controller, factory, InitialFrontier(problem, factory), 0);
  }

  /** An executing iteration that finds the frontier empty ends the run with the failure value. */
  lemma EmptyFrontierFails<A(!new), S(!new)>(
    problem: Problem<A, S>, controller: SearchController<A, S>, factory: NodeFactory<A, S>, k: nat)
    requires controller.IsExecuting(k)
    ensures Run(problem, controller, factory, [], k) == Trace([], Exhausted)
    ensures Outcome(controller, Run(problem, controller, factory, [], k)) == SearchResult.Failure
  {
  }

  /**
   * The search fails exactly when none of the nodes it removed passes the
   * goal test; otherwise it returns the solution for the node that did.
   */
  lemma FailsIffNoGoalRemoved<A(!new), S(!new)>(
    problem: Problem<A, S>, controller: SearchController<A, S>, factory: NodeFactory<A, S>)
    ensures var t := Search(problem, controller, factory);
      TreeSearchResult(problem, controller, factory) == SearchResult.Failure <==>
      forall n <- t.removed :: !controller.isGoalState(n, problem)
    ensures var t := Search(problem, controller, factory);
      TreeSearchResult(problem, controller, factory) != SearchResult.Failure ==>
      t.ending.GoalFound? && t.ending.goal in t.removed &&
      TreeSearchResult(problem, controller, factory) == SearchResult.Solution(PathActions(t.ending.goal))
  {
    var t := Search(problem, controller, factory);
    RunFacts(problem, controller, factory, InitialFrontier(problem, factory), 0);
    if t.ending.GoalFound? {
      assert t.removed[|t.removed| - 1] in t.removed;
    } else {
      forall n <- t.removed
        ensures !controller.isGoalState(n, problem)
      {
        var i :| 0 <= i < |t.removed| && t.removed[i] == n;
      }
    }
  }

  /**
   * The goal test is made when a node is removed. If the initial state's root
   * is a goal, the root is the only node removed, no child is ever built, and
   * the result is the empty solution, which is not the failure value.
   */
  lemma RootGoal<A(!new), S(!new)>(
    problem: Problem<A, S>, controller: SearchController<A, S>, factory: NodeFactory<A, S>)
    requires factory.Valid()
    requires controller.IsExecuting(0)
    requires controller.isGoalState(Node(problem.initialState, None, None, 0), problem)
    ensures Search(problem, controller, factory) ==
      Trace([Node(problem.initialState, None, None, 0)], GoalFound(Node(problem.initialState, None, None, 0)))
    ensures TreeSearchResult(problem, controller, factory) == SearchResult.Solution([])
  {
  }

  /**
   * The frontier is first in, first out: the nodes are removed in exactly the
   * order they were inserted (the starting frontier, then the children of
   * each removed node in turn), with no node skipped and none merged with an
   * equal one. When the frontier runs dry, every inserted node was removed.
   */
  lemma {:induction false} RemovedInInsertionOrder<A(!new), S(!new)>(
    problem: Problem<A, S>, controller: SearchController<A, S>, factory: NodeFactory<A, S>,
    frontier: seq<Node<A, S>>, k: nat)
    ensures var t := Run(problem, controller, factory, frontier, k);
      t.removed <= frontier + ExpandAll(problem, factory, t.removed)
    ensures var t := Run(problem, controller, factory, frontier, k);
      t.ending.Exhausted? ==> t.removed == frontier + ExpandAll(problem, factory, t.removed)
    decreases |controller.executing| - k
  {
    if controller.IsExecuting(k) && frontier != [] && !controller.isGoalState(frontier[0], problem) {
      var node := frontier[0];
      var next := frontier[1..] + Expand(problem, factory, node);
      var rest := Run(problem, controller, factory, next, k + 1).removed;
      RemovedInInsertionOrder(problem, controller, factory, next, k + 1);
      RunUnfold(problem, controller, factory, frontier, k);
      assert ExpandAll(problem, factory, [node] + rest) ==
        Expand(problem, factory, node) + ExpandAll(problem, factory, rest) by {
        assert ([node] + rest)[1..] == rest;
      }
      PrependHead(frontier, Expand(problem, factory, node), rest, ExpandAll(problem, factory, rest));
    }
  }

  /** Removing the head of the frontier before a run keeps removal order a prefix of insertion order. */
  lemma PrependHead<T>(frontier: seq<T>, added: seq<T>, rest: seq<T>, tail: seq<T>)
    requires frontier != []
    requires rest <= frontier[1..] + added + tail
    ensures [frontier[0]] + rest <= frontier + (added + tail)
    ensures rest == frontier[1..] + added + tail ==> [frontier[0]] + rest == frontier + (added + tail)
  {
    assert frontier + (added + tail) == [frontier[0]] + (frontier[1..] + added + tail);
  }

  /** Along the frontier depths never decrease and span at most one level. */
  ghost predicate Layered<A, S>(frontier: seq<Node<A, S>>)
  {
    forall i, j :: 0 <= i <= j < |frontier| ==> Depth(frontier[i]) <= Depth(frontier[j]) <= Depth(frontier[i]) + 1
  }

  /** One expansion of the head of a layered frontier leaves it layered. */
  lemma ExpansionKeepsLayers<A(!new), S(!new)>(
    problem: Problem<A, S>, factory: NodeFactory<A, S>, frontier: seq<Node<A, S>>)
    requires factory.Valid() && frontier != [] && Layered(frontier)
    ensures Layered(frontier[1..] + Expand(problem, factory, frontier[0]))
    ensures forall n <- frontier[1..] + Expand(problem, factory, frontier[0]) :: Depth(frontier[0]) <= Depth(n)
  {
    var node := frontier[0];
    var children := Expand(problem, factory, node);
    var next := frontier[1..] + children;
    forall m | 0 <= m < |children|
      ensures Depth(children[m]) == Depth(node) + 1
    {
      assert children[m].parent == Some(node);
    }
    forall i | 0 <= i < |next|
      ensures Depth(node) <= Depth(next[i]) <= Depth(node) + 1
    {
      if i < |frontier| - 1 {
        assert next[i] == frontier[i + 1];
      } else {
        assert next[i] == children[i - (|frontier| - 1)];
      }
    }
    forall i, j | 0 <= i <= j < |next|
      ensures Depth(next[i]) <= Depth(next[j]) <= Depth(next[i]) + 1
    {
      if j < |frontier| - 1 {
        assert next[i] == frontier[i + 1] && next[j] == frontier[j + 1];
      } else if i >= |frontier| - 1 {
        assert next[i] == children[i - (|frontier| - 1)] && next[j] == children[j - (|frontier| - 1)];
      } else {
        assert next[j] == children[j - (|frontier| - 1)];
      }
    }
  }

  /**
   * Breadth-first order: from a layered frontier (the initial one is), the
   * removed nodes come out shallowest first, never going back up the tree.
   */
  lemma {:induction false} RemovedBreadthFirst<A(!new), S(!new)>(
    problem: Problem<A, S>, controller: SearchController<A, S>, factory: NodeFactory<A, S>,
    frontier: seq<Node<A, S>>, k: nat)
    requires factory.Valid() && Layered(frontier)
    ensures var r := Run(problem, controller, factory, frontier, k).removed;
      forall i, j :: 0 <= i <= j < |r| ==> Depth(r[i]) <= Depth(r[j])
    ensures var r := Run(problem, controller, factory, frontier, k).removed;
      forall n <- r :: Depth(frontier[0]) <= Depth(n)
    decreases |controller.executing| - k
  {
    var r := Run(problem, controller, factory, frontier, k).removed;
    if controller.IsExecuting(k) && frontier != [] && !controller.isGoalState(frontier[0], problem) {
      var next := frontier[1..] + Expand(problem, factory, frontier[0]);
      var rest := Run(problem, controller, factory, next, k + 1).removed;
      ExpansionKeepsLayers(problem, factory, frontier);
      RemovedBreadthFirst(problem, controller, factory, next, k + 1);
      RunUnfold(problem, controller, factory, frontier, k);
      assert r == [frontier[0]] + rest;
      forall i | 0 < i < |r|
        ensures Depth(frontier[0]) <= Depth(r[i])
      {
        assert r[i] == rest[i - 1];
        assert next != [] && Depth(frontier[0]) <= Depth(next[0]);
      }
    }
  }

  /** A whole search removes its nodes in breadth-first order. */
  lemma SearchIsBreadthFirst<A(!new), S(!new)>(
    problem: Problem<A, S>, controller: SearchController<A, S>, factory: NodeFactory<A, S>)
    requires factory.Valid()
    ensures var r := Search(problem, controller, factory).removed;
      forall i, j :: 0 <= i <= j < |r| ==> Depth(r[i]) <= Depth(r[j])
  {
    var initial := InitialFrontier(problem, factory);
    assert Layered(initial) by {
      assert |initial| == 1;
    }
    RemovedBreadthFirst(problem, controller, factory, initial, 0);
    assert Search(problem, controller, factory) == Run(problem, controller, factory, initial, 0);
  }

  /** A node reached from the root for the initial state, through children the factory built. */
  ghost predicate FromRoot<A, S>(problem: Problem<A, S>, n: Node<A, S>)
  {
    WellFormed(n) && Consistent(problem, n) && RootOf(n) == Node(problem.initialState, None, None, 0)
  }

  /** Every node a run removes hangs, like the frontier it started from, below the initial root. */
  lemma {:induction false} RemovedFromRoot<A(!new), S(!new)>(
    problem: Problem<A, S>, controller: SearchController<A, S>, factory: NodeFactory<A, S>,
    frontier: seq<Node<A, S>>, k: nat)
    requires factory.Valid()
    requires forall n <- frontier :: FromRoot(problem, n)
    ensures forall n <- Run(problem, controller, factory, frontier, k).removed :: FromRoot(problem, n)
    decreases |controller.executing| - k
  {
    if controller.IsExecuting(k) && frontier != [] && !controller.isGoalState(frontier[0], problem) {
      var node := frontier[0];
      var children := Expand(problem, factory, node);
      assert node in frontier;
      forall c <- children
        ensures FromRoot(problem, c)
      {
        var m :| 0 <= m < |children| && children[m] == c;
        ChildKeepsChain(problem, node, problem.actions(node.state)[m], c);
      }
      RemovedFromRoot(problem, controller, factory, frontier[1..] + children, k + 1);
      RunUnfold(problem, controller, factory, frontier, k);
    }
  }

  /**
   * A solution is sound: it is the path of a removed node that passed the
   * goal test, it has one action per ancestor of that node, and replaying it
   * from the initial state reaches that node's state.
   */
  lemma SolutionIsSound<A(!new), S(!new)>(
    problem: Problem<A, S>, controller: SearchController<A, S>, factory: NodeFactory<A, S>, actions: seq<A>)
    requires factory.Valid()
    requires TreeSearchResult(problem, controller, factory) == SearchResult.Solution(actions)
    ensures exists n :: (n in Search(problem, controller, factory).removed && controller.isGoalState(n, problem) &&
      actions == PathActions(n) && |actions| == Depth(n) && Replay(problem, problem.initialState, actions) == n.state)
  {
    var t := Search(problem, controller, factory);
    RunFacts(problem, controller, factory, InitialFrontier(problem, factory), 0);
    var n := t.ending.goal;
    RemovedFromRoot(problem, controller, factory, InitialFrontier(problem, factory), 0);
    assert n in t.removed;
    PathReplaysToState(problem, n);
  }

  /** With a controller that tests the problem's goal, a solution leads from the initial state to a goal state. */
  lemma SolutionReachesGoal<A(!new), S(!new)>(
    problem: Problem<A, S>, executing: seq<bool>, factory: NodeFactory<A, S>, actions: seq<A>)
    requires factory.Valid()
    requires TreeSearchResult(problem, ProblemGoalController(executing), factory) == SearchResult.Solution(actions)
    ensures problem.isGoal(Replay(problem, problem.initialState, actions))
  {
    SolutionIsSound(problem, ProblemGoalController(executing), factory, actions);
  }
}
