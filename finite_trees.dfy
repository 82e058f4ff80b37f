/**
 * TREE-SEARCH on a finite tree. The tree below a frontier is counted level
 * by level: `Layer(.., j)` holds the nodes exactly j levels below the
 * frontier, and `Below(.., h)` holds every node fewer than h levels below it.
 * The tree is finite with height at most h when `Layer(.., h)` is empty.
 * With enough polls that say "executing", the search then ends without being
 * cancelled, and it finds a goal exactly when the tree holds one.
 */
module FiniteTrees {
  import opened SearchApi
  import opened TreeSearchSpec

  /** The nodes exactly `j` levels below the given ones, each level in expansion order. */
  function Layer<A(!new), S(!new)>(problem: Problem<A, S>, factory: NodeFactory<A, S>,
                                   nodes: seq<Node<A, S>>, j: nat): seq<Node<A, S>>
    decreases j
  {
    if j == 0 then nodes else Layer(problem, factory, ExpandAll(problem, factory, nodes), j - 1)
  }

  /** The given nodes and every node fewer than `h` levels below them, level by level. */
  function Below<A(!new), S(!new)>(problem: Problem<A, S>, factory: NodeFactory<A, S>,
                                   nodes: seq<Node<A, S>>, h: nat): seq<Node<A, S>>
    decreases h
  {
    if h == 0 then [] else nodes + Below(problem, factory, ExpandAll(problem, factory, nodes), h - 1)
  }

  lemma {:induction false} ExpandAllAppend<A(!new), S(!new)>(
    problem: Problem<A, S>, factory: NodeFactory<A, S>, a: seq<Node<A, S>>, b: seq<Node<A, S>>)
    ensures ExpandAll(problem, factory, a + b) == ExpandAll(problem, factory, a) + ExpandAll(problem, factory, b)
    decreases |a|
  {
    if a == [] {
      assert a + b == b;
    } else {
      assert (a + b)[1..] == a[1..] + b;
      ExpandAllAppend(problem, factory, a[1..], b);
    }
  }

  lemma {:induction false} LayerAppend<A(!new), S(!new)>(
    problem: Problem<A, S>, factory: NodeFactory<A, S>, a: seq<Node<A, S>>, b: seq<Node<A, S>>, j: nat)
    ensures Layer(problem, factory, a + b, j) == Layer(problem, factory, a, j) + Layer(problem, factory, b, j)
    decreases j
  {
    if j > 0 {
      ExpandAllAppend(problem, factory, a, b);
      LayerAppend(problem, factory, ExpandAll(problem, factory, a), ExpandAll(problem, factory, b), j - 1);
    }
  }

  /** The tree below two frontiers side by side holds the nodes of both trees. */
  lemma {:induction false} BelowAppend<A(!new), S(!new)>(
    problem: Problem<A, S>, factory: NodeFactory<A, S>, a: seq<Node<A, S>>, b: seq<Node<A, S>>, h: nat)
    ensures multiset(Below(problem, factory, a + b, h)) ==
      multiset(Below(problem, factory, a, h)) + multiset(Below(problem, factory, b, h))
    decreases h
  {
    if h > 0 {
      var ea, eb := ExpandAll(problem, factory, a), ExpandAll(problem, factory, b);
      var m, x, y := Below(problem, factory, ea + eb, h - 1), Below(problem, factory, ea, h - 1),
                     Below(problem, factory, eb, h - 1);
      assert multiset(m) == multiset(x) + multiset(y) by {
        BelowAppend(problem, factory, ea, eb, h - 1);
      }
      assert Below(problem, factory, a + b, h) == (a + b) + m by {
        ExpandAllAppend(problem, factory, a, b);
      }
      Regroup(a, b, m, x, y);
    }
  }

  lemma Regroup<T>(a: seq<T>, b: seq<T>, m: seq<T>, x: seq<T>, y: seq<T>)
    requires multiset(m) == multiset(x) + multiset(y)
    ensures multiset((a + b) + m) == multiset(a + x) + multiset(b + y)
  {
  }

  /** One level more adds exactly the next layer. */
  lemma {:induction false} BelowExtend<A(!new), S(!new)>(
    problem: Problem<A, S>, factory: NodeFactory<A, S>, nodes: seq<Node<A, S>>, h: nat)
    ensures Below(problem, factory, nodes, h + 1) == Below(problem, factory, nodes, h) + Layer(problem, factory, nodes, h)
    decreases h
  {
    if h == 0 {
      assert Below(problem, factory, ExpandAll(problem, factory, nodes), 0) == [];
      assert nodes + [] == nodes;
    } else {
      BelowExtend(problem, factory, ExpandAll(problem, factory, nodes), h - 1);
    }
  }

  /** Below an empty layer every layer is empty. */
  lemma {:induction false} LayerStaysEmpty<A(!new), S(!new)>(
    problem: Problem<A, S>, factory: NodeFactory<A, S>, nodes: seq<Node<A, S>>, h: nat)
    requires Layer(problem, factory, nodes, h) == []
    ensures Layer(problem, factory, nodes, h + 1) == []
    decreases h
  {
    if h == 0 {
      assert ExpandAll(problem, factory, nodes) == [];
    } else {
      LayerStaysEmpty(problem, factory, ExpandAll(problem, factory, nodes), h - 1);
    }
  }

  /** An empty frontier has nothing below it. */
  lemma {:induction false} BelowNothing<A(!new), S(!new)>(
    problem: Problem<A, S>, factory: NodeFactory<A, S>, h: nat)
    ensures Below(problem, factory, [], h) == []
    decreases h
  {
    if h > 0 {
      assert ExpandAll(problem, factory, []) == [];
      BelowNothing(problem, factory, h - 1);
    }
  }

  /** After one expansion nothing lies `h` levels below the frontier, nor below the head's children at one level less. */
  lemma ExpansionStaysFinite<A(!new), S(!new)>(
    problem: Problem<A, S>, factory: NodeFactory<A, S>, frontier: seq<Node<A, S>>, h: nat)
    requires frontier != [] && Layer(problem, factory, frontier, h) == []
    ensures h > 0 && Layer(problem, factory, Expand(problem, factory, frontier[0]), h - 1) == []
    ensures Layer(problem, factory, frontier[1..] + Expand(problem, factory, frontier[0]), h) == []
  {
    var x, rest := frontier[0], frontier[1..];
    var children := Expand(problem, factory, x);
    assert h > 0;
    assert ExpandAll(problem, factory, [x]) == children by {
      assert [x][1..] == [];
    }
    assert Layer(problem, factory, children, h - 1) == [] && Layer(problem, factory, rest, h) == [] by {
      assert frontier == [x] + rest;
      LayerAppend(problem, factory, [x], rest, h);
    }
    LayerAppend(problem, factory, rest, children, h);
    LayerStaysEmpty(problem, factory, children, h - 1);
  }

  /**
   * One iteration on a finite tree: the tree below the next frontier (the
   * rest followed by the head's children) is the old tree without the head,
   * and it is still no higher.
   */
  lemma ExpansionRemovesOne<A(!new), S(!new)>(
    problem: Problem<A, S>, factory: NodeFactory<A, S>, frontier: seq<Node<A, S>>, h: nat)
    requires frontier != [] && Layer(problem, factory, frontier, h) == []
    ensures var next := frontier[1..] + Expand(problem, factory, frontier[0]);
      multiset(Below(problem, factory, frontier, h)) == multiset{frontier[0]} + multiset(Below(problem, factory, next, h)) &&
      Layer(problem, factory, next, h) == []
  {
    var x, rest := frontier[0], frontier[1..];
    var children := Expand(problem, factory, x);
    var next := rest + children;
    assert h > 0;
    assert ExpandAll(problem, factory, [x]) == children by {
      assert [x][1..] == [];
    }
    ExpansionStaysFinite(problem, factory, frontier, h);
    var tree, restTree := Below(problem, factory, children, h - 1), Below(problem, factory, rest, h);
    assert multiset(Below(problem, factory, frontier, h)) == multiset([x] + tree) + multiset(restTree) by {
      assert frontier == [x] + rest;
      BelowAppend(problem, factory, [x], rest, h);
    }
    assert Below(problem, factory, children, h) == tree by {
      BelowExtend(problem, factory, children, h - 1);
    }
    assert multiset(Below(problem, factory, next, h)) == multiset(restTree) + multiset(tree) by {
      BelowAppend(problem, factory, rest, children, h);
    }
  }

  /**
   * Termination and completeness on a finite tree: when no node lies `h`
   * levels below the frontier and the controller says "executing" to one poll
   * more than there are nodes in the tree below the frontier, the run is not
   * cancelled, it removes only nodes of that tree, and it finds a goal exactly
   * when some node of that tree passes the goal test.
   */
  lemma {:induction false} FiniteTreeRun<A(!new), S(!new)>(
    problem: Problem<A, S>, controller: SearchController<A, S>, factory: NodeFactory<A, S>,
    frontier: seq<Node<A, S>>, k: nat, h: nat)
    requires Layer(problem, factory, frontier, h) == []
    requires forall j :: k <= j <= k + |Below(problem, factory, frontier, h)| ==> controller.IsExecuting(j)
    ensures var t := Run(problem, controller, factory, frontier, k);
      !t.ending.Cancelled? &&
      (forall n <- t.removed :: n in Below(problem, factory, frontier, h)) &&
      (t.ending.GoalFound? <==> exists n <- Below(problem, factory, frontier, h) :: controller.isGoalState(n, problem))
    decreases |Below(problem, factory, frontier, h)|
  {
    var below := Below(problem, factory, frontier, h);
    var t := Run(problem, controller, factory, frontier, k);
    assert controller.IsExecuting(k);
    if frontier == [] {
      BelowNothing(problem, factory, h);
      assert t == Trace([], Exhausted);
    } else {
      var x := frontier[0];
      var next := frontier[1..] + Expand(problem, factory, x);
      ExpansionRemovesOne(problem, factory, frontier, h);
      var nextBelow := Below(problem, factory, next, h);
      assert x in multiset(below);
      if controller.isGoalState(x, problem) {
        assert t == Trace([x], GoalFound(x));
      } else {
        assert |multiset(below)| == |multiset(nextBelow)| + 1;
        FiniteTreeRun(problem, controller, factory, next, k + 1, h);
        var rest := Run(problem, controller, factory, next, k + 1);
        RunUnfold(problem, controller, factory, frontier, k);
        assert t == Trace([x] + rest.removed, rest.ending);
        NextTreeInside(x, below, nextBelow);
        forall n <- below | controller.isGoalState(n, problem)
          ensures n in nextBelow
        {
          assert n in multiset(below);
        }
      }
    }
  }

  /** Every node of the smaller tree is a node of the larger one. */
  lemma NextTreeInside<T>(x: T, below: seq<T>, nextBelow: seq<T>)
    requires multiset(below) == multiset{x} + multiset(nextBelow)
    ensures forall n <- nextBelow :: n in below
  {
    forall n <- nextBelow
      ensures n in below
    {
      assert n in multiset(nextBelow);
      assert n in multiset(below);
    }
  }

  /**
   * TREE-SEARCH is complete on a finite tree, given enough polls: it returns
   * a solution exactly when some node of the tree below the root passes the
   * goal test, and when it fails, the frontier ran dry; it was not stopped.
   */
  lemma FiniteTreeSearch<A(!new), S(!new)>(
    problem: Problem<A, S>, controller: SearchController<A, S>, factory: NodeFactory<A, S>, h: nat)
    requires Layer(problem, factory, InitialFrontier(problem, factory), h) == []
    requires forall j :: 0 <= j <= |Below(problem, factory, InitialFrontier(problem, factory), h)| ==>
      controller.IsExecuting(j)
    ensures !Search(problem, controller, factory).ending.Cancelled?
    ensures TreeSearchResult(problem, controller, factory) != SearchResult.Failure <==>
      exists n <- Below(problem, factory, InitialFrontier(problem, factory), h) :: controller.isGoalState(n, problem)
  {
    FiniteTreeRun(problem, controller, factory, InitialFrontier(problem, factory), 0, h);
  }
}
