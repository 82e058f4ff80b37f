/**
 * The collaborators of the tree search: the problem being solved, the search
 * nodes and the factory that builds them, and the search controller that owns
 * the execution flag, the goal test and the construction of results.
 */
module SearchApi {
  import opened Wrappers

  /**
   * A problem as the search sees it. It is read-only: the search asks it for
   * the initial state, the legal actions of a state (in enumeration order),
   * the state an action leads to, and whether a state is a goal.
   */
  datatype Problem<!A, !S> = Problem(
    initialState: S,
    actions: S -> seq<A>,
    result: (S, A) -> S,
    isGoal: S -> bool)

  /**
   * A search node: the state reached, the node it was expanded from (none for
   * the root), the action that led here (none for the root) and the path cost.
   * Nodes are immutable and refer to their parent, so a chain of parents is
   * acyclic by construction.
   */
  datatype Node<A, S> = Node(
    state: S,
    parent: Option<Node<A, S>>,
    action: Option<A>,
    pathCost: int)

  /** The number of parent links between a node and the root of its chain. */
  function Depth<A, S>(n: Node<A, S>): nat
  {
    match n.parent
    case None => 0
    case Some(p) => Depth(p) + 1
  }

  /** The node reached by following parent references to the end. */
  function RootOf<A, S>(n: Node<A, S>): (root: Node<A, S>)
    ensures root.parent.None?
  {
    match n.parent
    case None => n
    case Some(p) => RootOf(p)
  }

  /** Along the whole chain, a node has an action exactly when it has a parent. */
  predicate WellFormed<A, S>(n: Node<A, S>)
  {
    match n.parent
    case None => n.action.None?
    case Some(p) => n.action.Some? && WellFormed(p)
  }

  /**
   * The actions from the root of the chain to this node, in the order they
   * were applied: the parent chain walked up and reversed.
   */
  function PathActions<A, S>(n: Node<A, S>): (path: seq<A>)
    ensures WellFormed(n) ==> |path| == Depth(n)
  {
    match n.parent
    case None => []
    case Some(p) =>
      PathActions(p) + match n.action { case Some(a) => [a] case None => [] }
  }

  /** Along the whole chain, every node's state is its parent's state moved by its action. */
  ghost predicate Consistent<A, S>(problem: Problem<A, S>, n: Node<A, S>)
  {
    match n.parent
    case None => true
    case Some(p) =>
      n.action.Some? && n.state == problem.result(p.state, n.action.value) && Consistent(problem, p)
  }

  /** The state reached from `s` by applying `acts` one after another. */
  function Replay<A, S>(problem: Problem<A, S>, s: S, acts: seq<A>): S
    decreases |acts|
  {
    if acts == [] then s else Replay(problem, problem.result(s, acts[0]), acts[1..])
  }

  lemma {:induction false} ReplayAppend<A, S>(problem: Problem<A, S>, s: S, acts: seq<A>, a: A)
    ensures Replay(problem, s, acts + [a]) == problem.result(Replay(problem, s, acts), a)
    decreases |acts|
  {
    if acts != [] {
      assert (acts + [a])[1..] == acts[1..] + [a];
      ReplayAppend(problem, problem.result(s, acts[0]), acts[1..], a);
    }
  }

  /**
   * Replaying the actions of a consistent node's path from the state of the
   * root of its chain reaches exactly the node's state.
   */
  lemma {:induction false} PathReplaysToState<A, S>(problem: Problem<A, S>, n: Node<A, S>)
    requires WellFormed(n) && Consistent(problem, n)
    ensures Replay(problem, RootOf(n).state, PathActions(n)) == n.state
  {
    match n.parent
    case None =>
    case Some(p) =>
      PathReplaysToState(problem, p);
      ReplayAppend(problem, RootOf(p).state, PathActions(p), n.action.value);
  }

  /** `child` is what expanding `parent` by `a` must produce. */
  ghost predicate ChildOf<A, S>(child: Node<A, S>, problem: Problem<A, S>, parent: Node<A, S>, a: A)
  {
    child.state == problem.result(parent.state, a) && child.parent == Some(parent) && child.action == Some(a)
  }

  /**
   * The node factory: it builds a root node from a state and a base cost, and
   * a child node from the problem, the parent and an action. Which path cost
   * a child gets is the factory's business and is left open.
   */
  datatype NodeFactory<!A(!new), !S(!new)> = NodeFactory(
    newRootNode: (S, int) -> Node<A, S>,
    newChildNode: (Problem<A, S>, Node<A, S>, A) -> Node<A, S>)
  {
    /** The construction contract every node factory keeps. */
    ghost predicate Valid()
    {
      (forall s, cost :: newRootNode(s, cost) == Node(s, None, None, cost)) &&
      (forall problem, parent, a :: ChildOf(newChildNode(problem, parent, a), problem, parent, a))
    }
  }

  /** A factory with unit step costs: a child costs one more than its parent. */
  function UnitCostNodeFactory<A(!new), S(!new)>(): (f: NodeFactory<A, S>)
    ensures f.Valid()
  {
    NodeFactory(
      (s: S, cost: int) => Node(s, None, None, cost),
      (problem: Problem<A, S>, parent: Node<A, S>, a: A) =>
        Node(problem.result(parent.state, a), Some(parent), Some(a), parent.pathCost + 1))
  }

  type ValidNodeFactory<!A(!new), !S(!new)> = f: NodeFactory<A, S> | f.Valid() witness UnitCostNodeFactory()

  /**
   * A child built by a valid factory from a node of a well-formed, consistent
   * chain is again one, one level deeper, with the same root.
   */
  lemma ChildKeepsChain<A, S>(problem: Problem<A, S>, parent: Node<A, S>, a: A, child: Node<A, S>)
    requires ChildOf(child, problem, parent, a)
    requires WellFormed(parent) && Consistent(problem, parent)
    ensures WellFormed(child) && Consistent(problem, child)
    ensures Depth(child) == Depth(parent) + 1 && RootOf(child) == RootOf(parent)
    ensures PathActions(child) == PathActions(parent) + [a]
  {
  }

  /** What `apply` returns: the actions of a solution, or the failure value. */
  datatype SearchResult<A> = Solution(actions: seq<A>) | Failure

  /**
   * The search controller. `executing` is the schedule of answers the
   * execution flag gives: the k-th poll (counting from 0) sees `executing[k]`,
   * and every poll past the end of the schedule sees false, so a controller
   * always stops eventually. `isGoalState` is the goal test on nodes.
   */
  datatype SearchController<!A, !S> = SearchController(
    executing: seq<bool>,
    isGoalState: (Node<A, S>, Problem<A, S>) -> bool)
  {
    /** The answer to the k-th poll of the execution flag. */
    function IsExecuting(k: nat): bool
    {
      k < |executing| && executing[k]
    }

    /** The result for a goal node: the actions along its path, tagged as a solution. */
    function Solution(n: Node<A, S>): (r: SearchResult<A>)
      ensures r != SearchResult.Failure
      ensures WellFormed(n) ==> |r.actions| == Depth(n)
    {
      SearchResult.Solution(PathActions(n))
    }

    /** The result when no solution is found or the search was stopped. */
    function Failure(): SearchResult<A>
    {
      SearchResult.Failure
    }
  }

  /**
   * A controller whose goal test asks the problem whether the node's state is
   * a goal. It stands for any controller that delegates the goal test to the
   * problem; it is not a model of a particular controller class.
   */
  function ProblemGoalController<A, S>(executing: seq<bool>): SearchController<A, S>
  {
    SearchController(executing, (n: Node<A, S>, problem: Problem<A, S>) => problem.isGoal(n.state))
  }
}
