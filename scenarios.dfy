/**
 * Small concrete searches: a four-state tree searched for a reachable and
 * for an unreachable goal, and a two-state cycle showing that tree search
 * enqueues a state again each time it is reached.
 */
module Scenarios {
  import opened Wrappers
  import opened SearchApi
  import opened TreeSearchSpec
  import opened FiniteTrees

  datatype Place = A | B | C | D | Z

  /** An action moves from one place to another. */
  datatype Move = Move(from: Place, to: Place)

  /** A leads to B; B leads to C and to D, in that order; nothing else moves. */
  function TreeMoves(s: Place): seq<Move>
  {
    match s
    case A => [Move(A, B)]
    case B => [Move(B, C), Move(B, D)]
    case _ => []
  }

  /** A leads to B and B leads back to A. */
  function CycleMoves(s: Place): seq<Move>
  {
    match s
    case A => [Move(A, B)]
    case B => [Move(B, A)]
    case _ => []
  }

  function Travel(moves: Place -> seq<Move>, goal: Place): Problem<Move, Place>
  {
    Problem(A, moves, (s: Place, m: Move) => m.to, (s: Place) => s == goal)
  }

  /** A controller that answers "executing" to its first `n` polls. */
  function RunFor(n: nat): (c: SearchController<Move, Place>)
    ensures forall k: nat :: c.IsExecuting(k) <==> k < n
  {
    ProblemGoalController(seq(n, _ => true))
  }

  const root: Node<Move, Place> := Node(A, None, None, 0)
  const toB: Node<Move, Place> := Node(B, Some(root), Some(Move(A, B)), 1)
  const toC: Node<Move, Place> := Node(C, Some(toB), Some(Move(B, C)), 2)
  const toD: Node<Move, Place> := Node(D, Some(toB), Some(Move(B, D)), 2)

  /** `t` preceded by the removal of `n`. */
  function After(n: Node<Move, Place>, t: Trace<Move, Place>): Trace<Move, Place>
  {
    Trace([n] + t.removed, t.ending)
  }

  /** One iteration that removes a non-goal node and puts its children at the back. */
  lemma Iteration(p: Problem<Move, Place>, n: nat, frontier: seq<Node<Move, Place>>, k: nat,
                  children: seq<Node<Move, Place>>, next: seq<Node<Move, Place>>)
    requires k < n && frontier != [] && !p.isGoal(frontier[0].state)
    requires Expand(p, UnitCostNodeFactory(), frontier[0]) == children
    requires next == frontier[1..] + children
    ensures Run(p, RunFor(n), UnitCostNodeFactory(), frontier, k) ==
      After(frontier[0], Run(p, RunFor(n), UnitCostNodeFactory(), next, k + 1))
  {
    RunUnfold(p, RunFor(n), UnitCostNodeFactory(), frontier, k);
  }

  lemma ExpandTree(goal: Place)
    ensures Expand(Travel(TreeMoves, goal), UnitCostNodeFactory(), root) == [toB]
    ensures Expand(Travel(TreeMoves, goal), UnitCostNodeFactory(), toB) == [toC, toD]
    ensures Expand(Travel(TreeMoves, goal), UnitCostNodeFactory(), toC) == []
    ensures Expand(Travel(TreeMoves, goal), UnitCostNodeFactory(), toD) == []
  {
  }

  /**
   * The first three iterations on the tree: A, B and C are removed, none is
   * D or Z, and D is left alone in the frontier.
   */
  lemma TreeRun(goal: Place, n: nat)
    requires goal == D || goal == Z
    requires 3 <= n
    ensures var p, f := Travel(TreeMoves, goal), UnitCostNodeFactory();
      Search(p, RunFor(n), f) == After(root, After(toB, After(toC, Run(p, RunFor(n), f, [toD], 3))))
  {
    var p := Travel(TreeMoves, goal);
    ExpandTree(goal);
    assert InitialFrontier(p, UnitCostNodeFactory()) == [root];
    Iteration(p, n, [root], 0, [toB], [toB]);
    Iteration(p, n, [toB], 1, [toC, toD], [toC, toD]);
    Iteration(p, n, [toC, toD], 2, [], [toD]);
  }

  /**
   * Searching the tree for D with a FIFO frontier removes A, B, C and then
   * D, and returns the moves A to B and B to D, whatever the execution flag
   * answers after its first four polls, as long as those said "executing".
   */
  lemma BreadthFirstFindsD(executing: seq<bool>)
    requires forall j :: 0 <= j < 4 ==> ProblemGoalController<Move, Place>(executing).IsExecuting(j)
    ensures Search(Travel(TreeMoves, D), ProblemGoalController(executing), UnitCostNodeFactory()) ==
      Trace([root, toB, toC, toD], GoalFound(toD))
    ensures TreeSearchResult(Travel(TreeMoves, D), ProblemGoalController(executing), UnitCostNodeFactory()) ==
      SearchResult.Solution([Move(A, B), Move(B, D)])
  {
    var p, c, f := Travel(TreeMoves, D), ProblemGoalController<Move, Place>(executing), UnitCostNodeFactory();
    ExpandTree(D);
    assert InitialFrontier(p, f) == [root];
    assert c.IsExecuting(0) && c.IsExecuting(1) && c.IsExecuting(2) && c.IsExecuting(3);
    RunUnfold(p, c, f, [root], 0);
    assert [root][1..] == [];
    RunUnfold(p, c, f, [toB], 1);
    assert [toB][1..] == [];
    RunUnfold(p, c, f, [toC, toD], 2);
    assert [toC, toD][1..] == [toD];
  }

  /**
   * Searching the tree for the unreachable Z removes all four nodes, finds
   * the frontier empty and returns the failure value.
   */
  lemma UnreachableGoalFails()
    ensures Search(Travel(TreeMoves, Z), RunFor(5), UnitCostNodeFactory()) ==
      Trace([root, toB, toC, toD], Exhausted)
    ensures TreeSearchResult(Travel(TreeMoves, Z), RunFor(5), UnitCostNodeFactory()) == SearchResult.Failure
  {
    TreeRun(Z, 5);
    ExpandTree(Z);
    Iteration(Travel(TreeMoves, Z), 5, [toD], 3, [], []);
  }

  /**
   * The tree below A is finite: nothing lies three levels down, and the
   * tree holds the four nodes A, B, C and D, so five polls are enough for
   * the search to end without being cancelled.
   */
  lemma TreeIsFinite(goal: Place)
    ensures Layer(Travel(TreeMoves, goal), UnitCostNodeFactory(), [root], 3) == []
    ensures Below(Travel(TreeMoves, goal), UnitCostNodeFactory(), [root], 3) == [root, toB, toC, toD]
  {
    var p, f := Travel(TreeMoves, goal), UnitCostNodeFactory();
    ExpandTree(goal);
    assert ExpandAll(p, f, [root]) == [toB] by {
      assert [root][1..] == [];
    }
    assert ExpandAll(p, f, [toB]) == [toC, toD] by {
      assert [toB][1..] == [];
    }
    assert ExpandAll(p, f, [toC, toD]) == [] by {
      assert [toC, toD][1..] == [toD];
      assert [toD][1..] == [];
    }
  }

  /**
   * Tree search keeps no record of visited states: on a cycle, the initial
   * state A is removed a second time, as a different node one move further
   * down. With three polls the controller then stops the search.
   */
  lemma CycleRevisitsState()
    ensures var r := Search(Travel(CycleMoves, Z), RunFor(3), UnitCostNodeFactory()).removed;
      |r| == 3 && r[0].state == r[2].state == A && r[0] != r[2] && Depth(r[2]) == 2
    ensures Search(Travel(CycleMoves, Z), RunFor(3), UnitCostNodeFactory()).ending == Cancelled
  {
    var p := Travel(CycleMoves, Z);
    var back := Node(A, Some(toB), Some(Move(B, A)), 2);
    var again := Node(B, Some(back), Some(Move(A, B)), 3);
    assert InitialFrontier(p, UnitCostNodeFactory()) == [root];
    assert Expand(p, UnitCostNodeFactory(), root) == [toB];
    assert Expand(p, UnitCostNodeFactory(), toB) == [back];
    assert Expand(p, UnitCostNodeFactory(), back) == [again];
    Iteration(p, 3, [root], 0, [toB], [toB]);
    Iteration(p, 3, [toB], 1, [back], [back]);
    Iteration(p, 3, [back], 2, [again], [again]);
  }
}
