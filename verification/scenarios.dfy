/**
  Small concrete games that pin down how the agents behave on particular
  inputs. States are integers and moves are compass directions.
*/
module Scenarios {
  import opened Wrappers
  import opened Adapter
  import opened SearchNode
  import opened CostOrder
  import opened SimpleAgents
  import opened BlindSearch
  import opened AStarSearch

  datatype Dir = Left | Right | Up | Down

  /** Root 0 offers Up (to state 1, heuristic 2) and Down (to state 2,
      heuristic 5); the root itself has heuristic 3. */
  function LookAheadGame(): Game<int, Dir> {
    Game(
      s => if s == 0 then [Up, Down] else [],
      (s, m) => if s == 0 && m == Up then Some(1) else if s == 0 && m == Down then Some(2) else None,
      s => false,
      s => false,
      s => if s == 1 then 2 else if s == 2 then 5 else 3)
  }

  /** The candidates are scored by their successors, not by the root, so the
      moves do not tie: Up is the only best move, and the lookahead agent can
      only answer Up. */
  lemma LookAheadPrefersBetterSuccessor()
    ensures Scores(LookAheadGame(), 0, [Up, Down]) == [2, 5]
    ensures BestActions(LookAheadGame(), 0, [Up, Down], 2) == [Up]
  {
    var g := LookAheadGame();
    assert [Up, Down][1..] == [Down];
    assert Score(g, 0, Up) == 2 && Score(g, 0, Down) == 5;
  }

  /** Root 0 has Left (to 1) and Right (to 2); 1 and 2 each have Left, to 3
      and 4; from 3 the engine refuses Left; 4 is a dead end. `rightHeuristic`
      is the heuristic of state 2, every other state scores 0. */
  function ChainGame(rightHeuristic: int): Game<int, Dir> {
    Game(
      s => if s == 0 then [Left, Right] else if s == 1 || s == 2 then [Left] else if s == 3 then [Left] else [],
      (s, m) => if s == 0 then (if m == Left then Some(1) else Some(2))
                else if s == 1 then Some(3)
                else if s == 2 then Some(4)
                else None,
      s => false,
      s => false,
      s => if s == 2 then rightHeuristic else 0)
  }

  lemma ChainRootExpandable(h: int)
    ensures RootExpandable(ChainGame(h), 0)
  {
  }

  /** Expanding a node whose one move leads to a kept successor `next`. */
  lemma ExpandSingle(g: Game<int, Dir>, p: Policy, cur: Node<int, Dir>, next: int, frontier: seq<Node<int, Dir>>)
    requires g.legalActions(cur.state) == [Left]
    requires g.successor(cur.state, Left) == Some(next) && !g.isLose(next)
    ensures Expand(g, p, false, cur, [Left], frontier) == Grown(Insert(p, Child(g, cur, next), frontier))
  {
    assert [Left][1..] == [];
  }

  /** The BFS and DFS runs on `ChainGame(h)`: the first-level nodes are
      `n1` (Left) and `n2` (Right). BFS explores `n1`, then `n2`, then stops
      at `n1`'s child, whose only move is refused; DFS stops right after `n1`,
      because that child goes to the front of the frontier. */
  lemma ChainRuns(h: int)
    ensures
      var g := ChainGame(h);
      var n1 := Node(1, 1, 1, Left);
      var n2 := Node(2, 1, h + 1, Right);
      && RootExpandable(g, 0)
      && BFSAgent(g, 0, 5) == Found(Sort([n1, n2, Child(g, n1, 3)])[0].rootAction)
      && DFSAgent(g, 0, 5) == Found(Sort([n1, Child(g, n1, 3)])[0].rootAction)
  {
    var g := ChainGame(h);
    ChainRootExpandable(h);
    var n1 := Node(1, 1, 1, Left);
    var n2 := Node(2, 1, h + 1, Right);
    var n3 := Child(g, n1, 3);
    var n4 := Child(g, n2, 4);
    assert RootFrontier(g, 0) == [n1, n2];
    assert g.legalActions(1) == [Left] && g.legalActions(2) == [Left] && g.legalActions(3) == [Left];
    assert g.successor(1, Left) == Some(3) && g.successor(2, Left) == Some(4) && g.successor(3, Left) == None;
    assert !g.isLose(3) && !g.isLose(4);
    assert [] + [n1] == [n1] && [n1] + [n2] == [n1, n2] && [n1, n2] + [n3] == [n1, n2, n3];
    assert Insert(Fifo, n3, [n2]) == [n2, n3] && Insert(Fifo, n4, [n3]) == [n3, n4];
    assert Insert(Lifo, n3, [n2]) == [n3, n2];
    assert Expand(g, Fifo, false, n3, [Left], [n4]) == Halt;
    assert Expand(g, Lifo, false, n3, [Left], [n2]) == Halt;
    ExpandSingle(g, Fifo, n1, 3, [n2]);
    ExpandSingle(g, Fifo, n2, 4, [n3]);
    ExpandSingle(g, Lifo, n1, 3, [n2]);
    assert [n1, n2][1..] == [n2] && [n2, n3][1..] == [n3] && [n3, n4][1..] == [n4] && [n3, n2][1..] == [n2];
    assert BlindStep(g, Fifo, Search([n1, n2], [])) == Next(Search([n2, n3], [n1]));
    assert BlindStep(g, Fifo, Search([n2, n3], [n1])) == Next(Search([n3, n4], [n1, n2]));
    assert BlindStep(g, Fifo, Search([n3, n4], [n1, n2])) == Done(Found(Sort([n1, n2, n3])[0].rootAction));
    assert BlindStep(g, Lifo, Search([n1, n2], [])) == Next(Search([n3, n2], [n1]));
    assert BlindStep(g, Lifo, Search([n3, n2], [n1])) == Done(Found(Sort([n1, n3])[0].rootAction));
  }

  /** With a flat heuristic both searches answer Left: the cheapest explored
      nodes are the two first-level ones, and the Left node was explored first. */
  lemma ChainFlatHeuristic()
    ensures RootExpandable(ChainGame(0), 0)
    ensures BFSAgent(ChainGame(0), 0, 5) == Found(Left)
    ensures DFSAgent(ChainGame(0), 0, 5) == Found(Left)
  {
    ChainRuns(0);
  }

  /** Making the Right branch cheap separates the two: BFS explores the Right
      node before stopping and answers Right, while DFS stops before ever
      reaching it and answers Left. */
  lemma ChainCheapRight()
    ensures RootExpandable(ChainGame(-5), 0)
    ensures BFSAgent(ChainGame(-5), 0, 5) == Found(Right)
    ensures DFSAgent(ChainGame(-5), 0, 5) == Found(Left)
  {
    ChainRuns(-5);
  }

  /** The iteration at which BFS stops on `ChainGame(h)` is the third: the
      loop has then explored `n1` and `n2` and holds `n1`'s child at the
      front, so the explored list the answer is drawn from is exactly the
      two first-level nodes and that child. */
  lemma ChainBfsStopState(h: int)
    ensures
      var g := ChainGame(h);
      var n1 := Node(1, 1, 1, Left);
      var n2 := Node(2, 1, h + 1, Right);
      var stop := BlindIterate(g, Fifo, Search(RootFrontier(g, 0), []), 2);
      && stop == Search([Child(g, n1, 3), Child(g, n2, 4)], [n1, n2])
      && BlindStep(g, Fifo, stop).Done?
      && stop.explored + [stop.frontier[0]] == [n1, n2, Child(g, n1, 3)]
  {
    var g := ChainGame(h);
    var n1 := Node(1, 1, 1, Left);
    var n2 := Node(2, 1, h + 1, Right);
    var n3 := Child(g, n1, 3);
    var n4 := Child(g, n2, 4);
    assert RootFrontier(g, 0) == [n1, n2];
    assert g.legalActions(1) == [Left] && g.legalActions(2) == [Left] && g.legalActions(3) == [Left];
    assert g.successor(1, Left) == Some(3) && g.successor(2, Left) == Some(4) && g.successor(3, Left) == None;
    assert [] + [n1] == [n1] && [n1] + [n2] == [n1, n2];
    assert Insert(Fifo, n3, [n2]) == [n2, n3] && Insert(Fifo, n4, [n3]) == [n3, n4];
    assert Expand(g, Fifo, false, n3, [Left], [n4]) == Halt;
    ExpandSingle(g, Fifo, n1, 3, [n2]);
    ExpandSingle(g, Fifo, n2, 4, [n3]);
    assert [n1, n2][1..] == [n2] && [n2, n3][1..] == [n3] && [n3, n4][1..] == [n4];
    assert BlindStep(g, Fifo, Search([n1, n2], [])) == Next(Search([n2, n3], [n1]));
    assert BlindStep(g, Fifo, Search([n2, n3], [n1])) == Next(Search([n3, n4], [n1, n2]));
    assert BlindIterate(g, Fifo, Search([n3, n4], [n1, n2]), 0) == Search([n3, n4], [n1, n2]);
  }

  /** Root 0 has Left (to 1, heuristic 3) and Right (to 2, heuristic 0).
      From 1, Up leads to 6; from 2, Up leads to the losing state 5. State 6
      is winning when `reachable` and losing otherwise. */
  function TrapGame(reachable: bool): Game<int, Dir> {
    Game(
      s => if s == 0 then [Left, Right] else if s == 1 || s == 2 then [Up] else [],
      (s, m) => if s == 0 then (if m == Left then Some(1) else Some(2))
                else if s == 1 then Some(6)
                else if s == 2 then Some(5)
                else None,
      s => reachable && s == 6,
      s => s == 5 || (!reachable && s == 6),
      s => if s == 1 then 3 else 0)
  }

  /** A* first expands the cheaper Right node, whose only successor is
      losing and is dropped, then the Left node. If its successor wins, the
      answer is Left; if that successor loses too, the frontier runs empty. */
  lemma TrapRuns(reachable: bool)
    ensures RootExpandable(TrapGame(reachable), 0)
    ensures AStarAgent(TrapGame(reachable), 0, 5) == if reachable then Found(Left) else Exhausted
  {
    var g := TrapGame(reachable);
    var nl := Node(1, 1, 4, Left);
    var nr := Node(2, 1, 1, Right);
    assert RootFrontier(g, 0) == [nl, nr];
    assert g.legalActions(1) == [Up] && g.legalActions(2) == [Up];
    assert g.successor(1, Up) == Some(6) && g.successor(2, Up) == Some(5);
    assert [Up][1..] == [];
    assert Sort([nl, nr]) == [nr, nl] by {
      assert [nl, nr][1..] == [nr] && [nr][1..] == [];
      assert Sort([nr]) == [nr];
      assert InsertByCost(nl, [nr]) == [nr] + InsertByCost(nl, []);
    }
    assert Expand(g, Fifo, true, nr, [Up], [nl]) == Grown([nl]);
    assert AStarStep(g, [nl, nr]) == Next([nl]);
    assert Sort([nl]) == [nl] && [nl][1..] == [];
    if reachable {
      assert Expand(g, Fifo, true, nl, [Up], []) == Halt;
      assert AStarStep(g, [nl]) == Done(Found(Left));
    } else {
      assert Expand(g, Fifo, true, nl, [Up], []) == Grown([]);
      assert AStarStep(g, [nl]) == Next([]);
    }
  }
}
