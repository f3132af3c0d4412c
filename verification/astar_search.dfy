/**
  `AStarAgent`. At the top of every iteration the whole frontier is sorted by
  `totalCost` (stably) and its head is removed, so the node expanded is the
  earliest cheapest one. Its children are appended to the sorted remainder.
  The first move whose successor is absent or winning ends the call with the
  current node's root action; an empty frontier ends it with nothing. The
  Python `getAction` also keeps an `explored` list that it never reads; it is not modelled.
*/
module AStarSearch {
  import opened Adapter
  import opened SearchNode
  import opened CostOrder

  /** One iteration of `while len(frontier) > 0`. */
  function AStarStep<S, M>(g: Game<S, M>, frontier: seq<Node<S, M>>): Step<seq<Node<S, M>>, M> {
    if |frontier| == 0 then Done(Exhausted)
    else
      var sorted := Sort(frontier);
      var cur := sorted[0];
      match Expand(g, Fifo, true, cur, g.legalActions(cur.state), sorted[1..])
      case Halt => Done(Found(cur.rootAction))
      case Grown(f) => Next(f)
  }

  /** How one iteration ends. An empty frontier ends the call with nothing.
      Otherwise the node taken is the earliest of least cost; the call ends
      exactly when one of its moves has an absent or winning successor, and
      then answers that node's own root action. */
  lemma AStarStepSpec<S, M>(g: Game<S, M>, frontier: seq<Node<S, M>>)
    ensures AStarStep(g, frontier) == Done(Exhausted) <==> |frontier| == 0
    ensures |frontier| > 0 ==>
              var cur := frontier[FirstMin(frontier)];
              && (AStarStep(g, frontier).Done? <==> HaltsAny(g, true, cur, g.legalActions(cur.state)))
              && (AStarStep(g, frontier).Done? ==> AStarStep(g, frontier) == Done(Found(cur.rootAction)))
  {
    if |frontier| > 0 {
      var sorted := Sort(frontier);
      SortHead(frontier);
      ExpandSpec(g, Fifo, true, sorted[0], g.legalActions(sorted[0].state), sorted[1..]);
    }
  }

  /** How one iteration continues: the new frontier is the sorted remainder
      followed by the expanded node's kept children in move order, that is,
      the old frontier without that node plus its children. */
  lemma AStarStepGrows<S, M>(g: Game<S, M>, frontier: seq<Node<S, M>>)
    requires AStarStep(g, frontier).Next?
    ensures |frontier| > 0
    ensures var cur := frontier[FirstMin(frontier)];
            var kids := Kids(g, cur, g.legalActions(cur.state));
            && AStarStep(g, frontier).next == Sort(frontier)[1..] + kids
            && multiset(AStarStep(g, frontier).next) == multiset(frontier) - multiset{cur} + multiset(kids)
  {
    var sorted := Sort(frontier);
    SortHead(frontier);
    SortTail(frontier);
    ExpandSpec(g, Fifo, true, sorted[0], g.legalActions(sorted[0].state), sorted[1..]);
  }

  /** One iteration keeps every frontier node valid, and any answer it gives
      is a legal move of the root. */
  lemma AStarStepValid<S, M>(g: Game<S, M>, root: S, frontier: seq<Node<S, M>>)
    requires AllValid(g, root, frontier)
    ensures AStarStep(g, frontier).Next? ==> AllValid(g, root, AStarStep(g, frontier).next)
    ensures AStarStep(g, frontier).Done? && AStarStep(g, frontier).outcome.Found? ==>
              AStarStep(g, frontier).outcome.action in g.legalActions(root)
  {
    if |frontier| > 0 {
      var sorted := Sort(frontier);
      SortMultiset(frontier);
      assert AllValid(g, root, sorted) by {
        forall i | 0 <= i < |sorted| ensures Valid(g, root, sorted[i]) {
          assert sorted[i] in multiset(frontier);
        }
      }
      assert AllValid(g, root, sorted[1..]);
      ExpandValid(g, root, Fifo, true, sorted[0], sorted[1..]);
    }
  }

  /** The A* loop, cut off after `fuel` iterations. */
  function RunAStar<S, M>(g: Game<S, M>, frontier: seq<Node<S, M>>, fuel: nat): Outcome<M>
    decreases fuel
  {
    if fuel == 0 then OutOfFuel
    else
      match AStarStep(g, frontier)
      case Done(r) => r
      case Next(f) => RunAStar(g, f, fuel - 1)
  }

  /** Whatever move the loop returns is a legal move of the root. */
  lemma {:induction false} RunAStarLegal<S, M>(g: Game<S, M>, root: S, frontier: seq<Node<S, M>>, fuel: nat)
    requires AllValid(g, root, frontier)
    ensures RunAStar(g, frontier, fuel).Found? ==> RunAStar(g, frontier, fuel).action in g.legalActions(root)
    decreases fuel
  {
    if fuel > 0 {
      AStarStepValid(g, root, frontier);
      if AStarStep(g, frontier).Next? {
        RunAStarLegal(g, root, AStarStep(g, frontier).next, fuel - 1);
      }
    }
  }

  /** The frontier after `k` iterations of the loop from `frontier`. Once an
      iteration ends the call, the frontier stays where the loop stopped, so
      an iteration `k` whose step is `Done` is the one the run stopped at. */
  function AStarIterate<S, M>(g: Game<S, M>, frontier: seq<Node<S, M>>, k: nat): seq<Node<S, M>>
    decreases k
  {
    if k == 0 then frontier
    else
      match AStarStep(g, frontier)
      case Done(_) => frontier
      case Next(f) => AStarIterate(g, f, k - 1)
  }

  /** Every frontier the loop reaches from a valid one is valid. */
  lemma {:induction false} AStarIterateValid<S, M>(g: Game<S, M>, root: S, frontier: seq<Node<S, M>>, k: nat)
    requires AllValid(g, root, frontier)
    ensures AllValid(g, root, AStarIterate(g, frontier, k))
    decreases k
  {
    if k > 0 && AStarStep(g, frontier).Next? {
      AStarStepValid(g, root, frontier);
      AStarIterateValid(g, root, AStarStep(g, frontier).next, k - 1);
    }
  }

  /** A run that ends within its fuel ends at an iteration of its own: some
      `k` below the fuel whose step, taken from the frontier the loop
      reached, gives the run's outcome. */
  lemma {:induction false} RunAStarStops<S, M>(g: Game<S, M>, frontier: seq<Node<S, M>>, fuel: nat)
    ensures !RunAStar(g, frontier, fuel).OutOfFuel? ==>
              exists k: nat | k < fuel :: AStarStep(g, AStarIterate(g, frontier, k)) == Done(RunAStar(g, frontier, fuel))
    decreases fuel
  {
    if fuel > 0 {
      match AStarStep(g, frontier)
      case Done(r) =>
        assert AStarIterate(g, frontier, 0) == frontier;
      case Next(f) =>
        RunAStarStops(g, f, fuel - 1);
        if !RunAStar(g, frontier, fuel).OutOfFuel? {
          var k: nat :| k < fuel - 1 && AStarStep(g, AStarIterate(g, f, k)) == Done(RunAStar(g, f, fuel - 1));
          assert AStarIterate(g, frontier, k + 1) == AStarIterate(g, f, k);
        }
    }
  }

  /** `a` is the answer of a stop on frontier `f`: the earliest cheapest node
      of the valid frontier `f` has a move whose successor is absent or
      winning, and `a` is that node's own root action. */
  ghost predicate AStarStopAnswer<S, M>(g: Game<S, M>, root: S, f: seq<Node<S, M>>, a: M) {
    && |f| > 0
    && AllValid(g, root, f)
    && HaltsAny(g, true, f[FirstMin(f)], g.legalActions(f[FirstMin(f)].state))
    && a == f[FirstMin(f)].rootAction
  }

  /** What a stopped A* run answers: the loop returns a move only at an
      iteration `k` of its own, below the fuel, and the move is the stop
      answer of the frontier the loop had reached there. */
  lemma RunAStarAnswer<S, M>(g: Game<S, M>, root: S, frontier: seq<Node<S, M>>, fuel: nat)
    requires AllValid(g, root, frontier)
    ensures RunAStar(g, frontier, fuel).Found? ==>
              exists k: nat | k < fuel ::
                && AStarStep(g, AStarIterate(g, frontier, k)) == Done(RunAStar(g, frontier, fuel))
                && AStarStopAnswer(g, root, AStarIterate(g, frontier, k), RunAStar(g, frontier, fuel).action)
  {
    var r := RunAStar(g, frontier, fuel);
    if r.Found? {
      RunAStarStops(g, frontier, fuel);
      var k: nat :| k < fuel && AStarStep(g, AStarIterate(g, frontier, k)) == Done(r);
      var f := AStarIterate(g, frontier, k);
      AStarIterateValid(g, root, frontier, k);
      AStarStepSpec(g, f);
      assert AStarStopAnswer(g, root, f, r.action);
    }
  }

  /** What the agent answers: the loop, started from the seeded frontier,
      stops at one of its own iterations, and the move is the root action of
      the earliest cheapest node of the frontier there, a node with a move
      whose successor is absent or winning. */
  lemma AStarAgentAnswer<S, M>(g: Game<S, M>, root: S, fuel: nat)
    requires RootExpandable(g, root)
    ensures AStarAgent(g, root, fuel).Found? ==>
              exists k: nat | k < fuel ::
                && AStarStep(g, AStarIterate(g, RootFrontier(g, root), k)) == Done(AStarAgent(g, root, fuel))
                && AStarStopAnswer(g, root, AStarIterate(g, RootFrontier(g, root), k), AStarAgent(g, root, fuel).action)
  {
    SeedValid(g, root);
    RunAStarAnswer(g, root, RootFrontier(g, root), fuel);
  }

  /** `AStarAgent.getAction`: seed, then loop. */
  function AStarAgent<S, M>(g: Game<S, M>, root: S, fuel: nat): (r: Outcome<M>)
    requires RootExpandable(g, root)
    ensures r.Found? ==> r.action in g.legalActions(root)
    ensures fuel > 0 && |g.legalActions(root)| == 0 ==> r == Exhausted
  {
    SeedValid(g, root);
    RunAStarLegal(g, root, RootFrontier(g, root), fuel);
    RunAStar(g, RootFrontier(g, root), fuel)
  }
}
