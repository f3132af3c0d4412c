/**
  `BFSAgent` and `DFSAgent`. Both run the same loop: take the node at the
  front of the frontier, record it as explored, and expand it. The only
  difference is where a new child goes: at the back for BFS (a queue) and at
  the front for DFS (a stack). When the engine refuses a successor, the
  search stops and answers the root action of the cheapest explored node,
  the earliest one on ties. When the frontier runs empty, nothing is returned.
*/
module BlindSearch {
  import opened Adapter
  import opened SearchNode
  import opened CostOrder

  datatype Search<S, M> = Search(frontier: seq<Node<S, M>>, explored: seq<Node<S, M>>)

  /** One iteration of `while len(frontier) > 0`. */
  function BlindStep<S, M>(g: Game<S, M>, p: Policy, st: Search<S, M>): Step<Search<S, M>, M> {
    if |st.frontier| == 0 then Done(Exhausted)
    else
      var cur := st.frontier[0];
      var explored := st.explored + [cur];
      match Expand(g, p, false, cur, g.legalActions(cur.state), st.frontier[1..])
      case Halt => Done(Found(Sort(explored)[0].rootAction))
      case Grown(f) => Next(Search(f, explored))
  }

  /** What one iteration does. An empty frontier ends the call with nothing.
      Otherwise the front node is dequeued and appended to the explored list;
      the call ends exactly when one of its moves has no successor, and then
      answers the root action of the earliest cheapest explored node;
      otherwise the loop continues with the front node's kept children
      placed by the policy. */
  lemma BlindStepSpec<S, M>(g: Game<S, M>, p: Policy, st: Search<S, M>)
    ensures BlindStep(g, p, st) == Done(Exhausted) <==> |st.frontier| == 0
    ensures |st.frontier| > 0 ==>
              var cur := st.frontier[0];
              var explored := st.explored + [cur];
              var actions := g.legalActions(cur.state);
              && (BlindStep(g, p, st).Done? <==> HaltsAny(g, false, cur, actions))
              && (BlindStep(g, p, st).Done? ==>
                    BlindStep(g, p, st) == Done(Found(explored[FirstMin(explored)].rootAction)))
              && (BlindStep(g, p, st).Next? ==>
                    BlindStep(g, p, st).next
                    == Search(Place(p, Kids(g, cur, actions), st.frontier[1..]), explored))
  {
    if |st.frontier| > 0 {
      var cur := st.frontier[0];
      var explored := st.explored + [cur];
      ExpandSpec(g, p, false, cur, g.legalActions(cur.state), st.frontier[1..]);
      SortHead(explored);
    }
  }

  /** BFS and DFS take the same decisions step for step: they stop together
      with the same answer, or go on with the same explored list and
      frontiers holding the same nodes. */
  lemma BlindPoliciesAgree<S, M>(g: Game<S, M>, st: Search<S, M>)
    ensures BlindStep(g, Fifo, st).Done? <==> BlindStep(g, Lifo, st).Done?
    ensures BlindStep(g, Fifo, st).Done? ==> BlindStep(g, Fifo, st) == BlindStep(g, Lifo, st)
    ensures BlindStep(g, Fifo, st).Next? ==>
              && BlindStep(g, Fifo, st).next.explored == BlindStep(g, Lifo, st).next.explored
              && multiset(BlindStep(g, Fifo, st).next.frontier)
                 == multiset(BlindStep(g, Lifo, st).next.frontier)
  {
    BlindStepSpec(g, Fifo, st);
    BlindStepSpec(g, Lifo, st);
    if |st.frontier| > 0 {
      var cur := st.frontier[0];
      PlaceSameNodes(Kids(g, cur, g.legalActions(cur.state)), st.frontier[1..]);
    }
  }

  ghost predicate ValidSearch<S, M>(g: Game<S, M>, root: S, st: Search<S, M>) {
    AllValid(g, root, st.frontier) && AllValid(g, root, st.explored)
  }

  /** One iteration keeps every node valid, and any answer it gives is a
      legal move of the root. */
  lemma BlindStepValid<S, M>(g: Game<S, M>, root: S, p: Policy, st: Search<S, M>)
    requires ValidSearch(g, root, st)
    ensures BlindStep(g, p, st).Next? ==> ValidSearch(g, root, BlindStep(g, p, st).next)
    ensures BlindStep(g, p, st).Done? && BlindStep(g, p, st).outcome.Found? ==>
              BlindStep(g, p, st).outcome.action in g.legalActions(root)
  {
    if |st.frontier| > 0 {
      var cur := st.frontier[0];
      var explored := st.explored + [cur];
      assert Valid(g, root, cur);
      assert AllValid(g, root, st.frontier[1..]);
      assert AllValid(g, root, explored);
      BlindStepSpec(g, p, st);
      ExpandValid(g, root, p, false, cur, st.frontier[1..]);
      if BlindStep(g, p, st).Done? {
        assert Valid(g, root, explored[FirstMin(explored)]);
      }
    }
  }

  /** The search loop, cut off after `fuel` iterations. */
  function RunBlind<S, M>(g: Game<S, M>, p: Policy, st: Search<S, M>, fuel: nat): Outcome<M>
    decreases fuel
  {
    if fuel == 0 then OutOfFuel
    else
      match BlindStep(g, p, st)
      case Done(r) => r
      case Next(st') => RunBlind(g, p, st', fuel - 1)
  }

  /** Whatever move the loop returns is a legal move of the root. */
  lemma {:induction false} RunBlindLegal<S, M>(g: Game<S, M>, root: S, p: Policy, st: Search<S, M>, fuel: nat)
    requires ValidSearch(g, root, st)
    ensures RunBlind(g, p, st, fuel).Found? ==> RunBlind(g, p, st, fuel).action in g.legalActions(root)
    decreases fuel
  {
    if fuel > 0 {
      BlindStepValid(g, root, p, st);
      if BlindStep(g, p, st).Next? {
        RunBlindLegal(g, root, p, BlindStep(g, p, st).next, fuel - 1);
      }
    }
  }

  /** The search state after `k` iterations of the loop from `st`. Once an
      iteration ends the call, the state stays where the loop stopped, so an
      iteration `k` whose step is `Done` is the one the run stopped at. */
  function BlindIterate<S, M>(g: Game<S, M>, p: Policy, st: Search<S, M>, k: nat): Search<S, M>
    decreases k
  {
    if k == 0 then st
    else
      match BlindStep(g, p, st)
      case Done(_) => st
      case Next(st') => BlindIterate(g, p, st', k - 1)
  }

  /** Every state the loop reaches from a valid one is valid, and its
      explored list extends the starting one. */
  lemma {:induction false} BlindIterateValid<S, M>(g: Game<S, M>, root: S, p: Policy, st: Search<S, M>, k: nat)
    requires ValidSearch(g, root, st)
    ensures ValidSearch(g, root, BlindIterate(g, p, st, k))
    ensures st.explored <= BlindIterate(g, p, st, k).explored
    decreases k
  {
    if k > 0 && BlindStep(g, p, st).Next? {
      BlindStepValid(g, root, p, st);
      BlindStepSpec(g, p, st);
      var st' := BlindStep(g, p, st).next;
      BlindIterateValid(g, root, p, st', k - 1);
      assert st.explored <= st'.explored;
    }
  }

  /** A run that ends within its fuel ends at an iteration of its own: some
      `k` below the fuel whose step, taken from the state the loop reached,
      gives the run's outcome. */
  lemma {:induction false} RunBlindStops<S, M>(g: Game<S, M>, p: Policy, st: Search<S, M>, fuel: nat)
    ensures !RunBlind(g, p, st, fuel).OutOfFuel? ==>
              exists k: nat | k < fuel :: BlindStep(g, p, BlindIterate(g, p, st, k)) == Done(RunBlind(g, p, st, fuel))
    decreases fuel
  {
    if fuel > 0 {
      match BlindStep(g, p, st)
      case Done(r) =>
        assert BlindIterate(g, p, st, 0) == st;
      case Next(st') =>
        RunBlindStops(g, p, st', fuel - 1);
        if !RunBlind(g, p, st, fuel).OutOfFuel? {
          var k: nat :| k < fuel - 1 && BlindStep(g, p, BlindIterate(g, p, st', k)) == Done(RunBlind(g, p, st', fuel - 1));
          assert BlindIterate(g, p, st, k + 1) == BlindIterate(g, p, st', k);
        }
    }
  }

  /** `a` is the answer of a stop on explored list `ex`: a move of the last
      explored node had no successor, every explored node is valid, and `a`
      is the root action of the earliest cheapest explored node. */
  ghost predicate BlindStopAnswer<S, M>(g: Game<S, M>, root: S, ex: seq<Node<S, M>>, a: M) {
    && |ex| > 0
    && AllValid(g, root, ex)
    && HaltsAny(g, false, ex[|ex| - 1], g.legalActions(ex[|ex| - 1].state))
    && a == ex[FirstMin(ex)].rootAction
  }

  /** An iteration that returns a move returns the stop answer of the
      explored list it has just extended. */
  lemma BlindStepAnswer<S, M>(g: Game<S, M>, root: S, p: Policy, st: Search<S, M>)
    requires ValidSearch(g, root, st)
    requires BlindStep(g, p, st).Done? && BlindStep(g, p, st).outcome.Found?
    ensures |st.frontier| > 0
    ensures BlindStopAnswer(g, root, st.explored + [st.frontier[0]], BlindStep(g, p, st).outcome.action)
  {
    BlindStepSpec(g, p, st);
    var ex := st.explored + [st.frontier[0]];
    assert AllValid(g, root, ex);
    assert ex[|ex| - 1] == st.frontier[0];
  }

  /** What a stopped run answers: the loop returns a move only at an
      iteration `k` of its own, below the fuel, whose state has a non-empty
      frontier and an explored list extending the starting one, and the move
      is the stop answer of that state's explored list extended by its front
      node. */
  lemma RunBlindAnswer<S, M>(g: Game<S, M>, root: S, p: Policy, st: Search<S, M>, fuel: nat)
    requires ValidSearch(g, root, st)
    ensures RunBlind(g, p, st, fuel).Found? ==>
              exists k: nat | k < fuel ::
                && |BlindIterate(g, p, st, k).frontier| > 0
                && st.explored <= BlindIterate(g, p, st, k).explored
                && BlindStep(g, p, BlindIterate(g, p, st, k)) == Done(RunBlind(g, p, st, fuel))
                && BlindStopAnswer(g, root, BlindIterate(g, p, st, k).explored + [BlindIterate(g, p, st, k).frontier[0]],
                                   RunBlind(g, p, st, fuel).action)
  {
    var r := RunBlind(g, p, st, fuel);
    if r.Found? {
      RunBlindStops(g, p, st, fuel);
      var k: nat :| k < fuel && BlindStep(g, p, BlindIterate(g, p, st, k)) == Done(r);
      BlindIterateValid(g, root, p, st, k);
      BlindStepAnswer(g, root, p, BlindIterate(g, p, st, k));
    }
  }

  /** The body of `getAction` shared by both agents: seed, then loop. */
  function BlindAgent<S, M>(g: Game<S, M>, p: Policy, root: S, fuel: nat): (r: Outcome<M>)
    requires RootExpandable(g, root)
    ensures r.Found? ==> r.action in g.legalActions(root)
    ensures fuel > 0 && |g.legalActions(root)| == 0 ==> r == Exhausted
  {
    var st := Search(RootFrontier(g, root), []);
    SeedValid(g, root);
    RunBlindLegal(g, root, p, st, fuel);
    RunBlind(g, p, st, fuel)
  }

  /** What either agent answers: the loop, started from the seeded frontier
      and an empty explored list, stops at one of its own iterations, and
      the move is the root action of the earliest cheapest node of the
      explored list there, whose last node has a move without successor. */
  lemma BlindAgentAnswer<S, M>(g: Game<S, M>, p: Policy, root: S, fuel: nat)
    requires RootExpandable(g, root)
    ensures BlindAgent(g, p, root, fuel).Found? ==>
              var st := Search(RootFrontier(g, root), []);
              exists k: nat | k < fuel ::
                && |BlindIterate(g, p, st, k).frontier| > 0
                && BlindStep(g, p, BlindIterate(g, p, st, k)) == Done(BlindAgent(g, p, root, fuel))
                && BlindStopAnswer(g, root, BlindIterate(g, p, st, k).explored + [BlindIterate(g, p, st, k).frontier[0]],
                                   BlindAgent(g, p, root, fuel).action)
  {
    SeedValid(g, root);
    RunBlindAnswer(g, root, p, Search(RootFrontier(g, root), []), fuel);
  }

  /** `BFSAgent.getAction`. */
  function BFSAgent<S, M>(g: Game<S, M>, root: S, fuel: nat): (r: Outcome<M>)
    requires RootExpandable(g, root)
    ensures r.Found? ==> r.action in g.legalActions(root)
  {
    BlindAgent(g, Fifo, root, fuel)
  }

  /** `DFSAgent.getAction`. */
  function DFSAgent<S, M>(g: Game<S, M>, root: S, fuel: nat): (r: Outcome<M>)
    requires RootExpandable(g, root)
    ensures r.Found? ==> r.action in g.legalActions(root)
  {
    BlindAgent(g, Lifo, root, fuel)
  }
}
