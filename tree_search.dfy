/**
 * The tree-search object: it holds its three collaborators (the search
 * controller, the node factory and the frontier supplier) and runs the
 * TREE-SEARCH loop over a frontier queue that it creates afresh on every call.
 */
module BasicSearch {
  import opened SearchApi
  import opened TreeSearchSpec

  /** A first-in, first-out queue: what the default frontier, a linked list, is used as. */
  class FifoQueue<T> {
    var items: seq<T>

    constructor ()
      ensures items == []
    {
      items := [];
    }

    /** Inserts at the back. */
    method Add(x: T)
      modifies this
      ensures items == old(items) + [x]
    {
      items := items + [x];
    }

    method IsEmpty() returns (empty: bool)
      ensures empty <==> items == []
    {
      empty := |items| == 0;
    }

    /** Takes the element at the front out. The search never asks an empty queue. */
    method Remove() returns (x: T)
      requires items != []
      modifies this
      ensures x == old(items)[0] && items == old(items)[1..]
    {
      x := items[0];
      items := items[1..];
    }
  }

  /** Where a search gets its frontier from: the default supplier makes an empty linked list. */
  datatype FrontierSupplier = LinkedListSupplier
  {
    method Get<T>() returns (frontier: FifoQueue<T>)
      ensures fresh(frontier) && frontier.items == []
    {
      frontier := new FifoQueue();
    }
  }

  class TreeSearch<A(!new), S(!new)> {
    var searchController: SearchController<A, S>
    var nodeFactory: ValidNodeFactory<A, S>
    var frontierSupplier: FrontierSupplier

    /** Stores the three collaborators. */
    constructor (searchController: SearchController<A, S>, nodeFactory: ValidNodeFactory<A, S>,
                 frontierSupplier: FrontierSupplier)
      ensures this.searchController == searchController
      ensures this.nodeFactory == nodeFactory
      ensures this.frontierSupplier == frontierSupplier
    {
      this.searchController := searchController;
      this.nodeFactory := nodeFactory;
      this.frontierSupplier := frontierSupplier;
    }

    method SetSearchController(searchController: SearchController<A, S>)
      modifies this`searchController
      ensures this.searchController == searchController
      ensures nodeFactory == old(nodeFactory) && frontierSupplier == old(frontierSupplier)
    {
      this.searchController := searchController;
    }

    method SetNodeFactory(nodeFactory: ValidNodeFactory<A, S>)
      modifies this`nodeFactory
      ensures this.nodeFactory == nodeFactory
      ensures searchController == old(searchController) && frontierSupplier == old(frontierSupplier)
    {
      this.nodeFactory := nodeFactory;
    }

    method SetFrontierSupplier(frontierSupplier: FrontierSupplier)
      modifies this`frontierSupplier
      ensures this.frontierSupplier == frontierSupplier
      ensures searchController == old(searchController) && nodeFactory == old(nodeFactory)
    {
      this.frontierSupplier := frontierSupplier;
    }

    /** Expands `node`: adds one child per legal action of its state, in enumeration order, to the back. */
    static method AddChildren(frontier: FifoQueue<Node<A, S>>, problem: Problem<A, S>,
                              factory: NodeFactory<A, S>, node: Node<A, S>)
      modifies frontier
      ensures frontier.items == old(frontier.items) + Expand(problem, factory, node)
    {
      ghost var children := Expand(problem, factory, node);
      var actions := problem.actions(node.state);
      for i := 0 to |actions|
        invariant frontier.items == old(frontier.items) + children[..i]
      {
        frontier.Add(factory.newChildNode(problem, node, actions[i]));
        assert children[..i + 1] == children[..i] + [children[i]];
      }
      assert children[..|actions|] == children;
    }

    /**
     * TREE-SEARCH. The frontier starts as the root node for the initial
     * state; while the controller says it is executing, the loop fails on an
     * empty frontier, removes the front node, returns the controller's
     * solution for it if it is a goal, and otherwise adds one child per legal
     * action to the back. A stopped controller gives the failure value.
     * The method modifies nothing that exists before the call: only the
     * frontier it creates.
     */
    method Apply(problem: Problem<A, S>) returns (r: SearchResult<A>)
      ensures r == TreeSearchResult(problem, searchController, nodeFactory)
    {
      var controller, factory := searchController, nodeFactory;
      var frontier := frontierSupplier.Get<Node<A, S>>();
      frontier.Add(factory.newRootNode(problem.initialState, 0));
      // the whole run, the nodes removed so far, and the number of polls of the execution flag so far
      ghost var whole := Search(problem, controller, factory);
      ghost var removed: seq<Node<A, S>> := [];
      var polls: nat := 0;
      assert frontier.items == InitialFrontier(problem, factory);
      assert whole.removed == removed + whole.removed;
      while controller.IsExecuting(polls)
        invariant whole == Trace(removed + Run(problem, controller, factory, frontier.items, polls).removed,
                                 Run(problem, controller, factory, frontier.items, polls).ending)
        decreases |controller.executing| - polls
      {
        ghost var start := frontier.items;
        ghost var before := Run(problem, controller, factory, start, polls);
        var empty := frontier.IsEmpty();
        if empty {
          assert before == Trace([], Exhausted);
          return controller.Failure();
        }
        var node := frontier.Remove();
        assert start == [node] + frontier.items;
        if controller.isGoalState(node, problem) {
          assert before == Trace([node], GoalFound(node));
          return controller.Solution(node);
        }
        ghost var rest := frontier.items;
        assert before == Run(problem, controller, factory, [node] + rest, polls);
        AddChildren(frontier, problem, factory, node);
        IterationShiftsTrace(problem, controller, factory, removed, node, rest, polls);
        removed := removed + [node];
        polls := polls + 1;
      }
      assert Run(problem, controller, factory, frontier.items, polls) == Trace([], Cancelled);
      return controller.Failure();
    }
  }
}
