/**
  Search nodes and the node bookkeeping shared by the BFS, DFS and A* agents:
  seeding the frontier from the root, creating a child from its parent, and
  expanding one dequeued node move by move.
*/
module SearchNode {
  import opened Wrappers
  import opened Adapter

  /** One frontier or explored entry. `rootAction` is the first move taken
      from the root on the way to `state`; it is what the agents return. */
  datatype Node<S, M> = Node(state: S, depth: nat, totalCost: int, rootAction: M)

  /** What one agent call yields. `Exhausted` is the frontier running empty,
      where the Python `getAction` falls off its end and returns None;
      `OutOfFuel` is the model's own cut-off of the unbounded loop. */
  datatype Outcome<M> = Found(action: M) | Exhausted | OutOfFuel

  /** One iteration of a search loop: either the call returns, or the loop
      goes round again with the new search state `next`. */
  datatype Step<T, M> = Done(outcome: Outcome<M>) | Next(next: T)

  /** Where a new child goes: at the back of the frontier (`append`, BFS and
      A*) or at its front (`insert(0, ...)`, DFS). */
  datatype Policy = Fifo | Lifo

  /** The result of expanding one node: either some successor stopped the
      search, or every move was handled and the frontier grew. */
  datatype Expansion<S, M> = Halt | Grown(frontier: seq<Node<S, M>>)

  /** The frontier built before the loop: one depth-1 node per root move,
      appended in move order, costed at its successor's heuristic plus one. */
  function Seed<S, M>(g: Game<S, M>, root: S, actions: seq<M>): (f: seq<Node<S, M>>)
    requires forall a | a in actions :: g.successor(root, a).Some?
    ensures |f| == |actions|
    ensures forall i | 0 <= i < |f| ::
              && g.successor(root, actions[i]) == Some(f[i].state)
              && f[i].depth == 1
              && f[i].totalCost == g.heuristic(f[i].state) + 1
              && f[i].rootAction == actions[i]
    decreases |actions|
  {
    if |actions| == 0 then []
    else
      var next := g.successor(root, actions[0]).value;
      [Node(next, 1, g.heuristic(next) + 1, actions[0])] + Seed(g, root, actions[1..])
  }

  /** The frontier every search starts from. */
  function RootFrontier<S, M>(g: Game<S, M>, root: S): seq<Node<S, M>>
    requires RootExpandable(g, root)
  {
    Seed(g, root, g.legalActions(root))
  }

  /** The node for successor `next` of `parent`. */
  function Child<S, M>(g: Game<S, M>, parent: Node<S, M>, next: S): Node<S, M> {
    Node(next, parent.depth + 1, parent.depth + 1 + g.heuristic(next), parent.rootAction)
  }

  /** Whether a successor ends the search: an absent successor always does;
      a winning one does only when `winHalts` (the A* agent). */
  predicate Halts<S, M>(g: Game<S, M>, winHalts: bool, next: Option<S>) {
    next.None? || (winHalts && g.isWin(next.value))
  }

  /** Some move among `actions` from `cur` has a successor that ends the search. */
  ghost predicate HaltsAny<S, M>(g: Game<S, M>, winHalts: bool, cur: Node<S, M>, actions: seq<M>) {
    exists i | 0 <= i < |actions| :: Halts(g, winHalts, g.successor(cur.state, actions[i]))
  }

  /** The children of `cur` worth keeping, in move order: one per move whose
      successor exists and is not a losing state. */
  function Kids<S, M>(g: Game<S, M>, cur: Node<S, M>, actions: seq<M>): (kids: seq<Node<S, M>>)
    ensures |kids| <= |actions|
    ensures forall j | 0 <= j < |kids| ::
              && kids[j].depth == cur.depth + 1
              && kids[j].totalCost == kids[j].depth + g.heuristic(kids[j].state)
              && kids[j].rootAction == cur.rootAction
              && !g.isLose(kids[j].state)
              && exists a | a in actions :: g.successor(cur.state, a) == Some(kids[j].state)
    ensures forall a | a in actions && g.successor(cur.state, a).Some? && !g.isLose(g.successor(cur.state, a).value) ::
              Child(g, cur, g.successor(cur.state, a).value) in kids
    decreases |actions|
  {
    if |actions| == 0 then []
    else
      var next := g.successor(cur.state, actions[0]);
      var rest := Kids(g, cur, actions[1..]);
      assert forall a | a in actions[1..] :: a in actions;
      if next.Some? && !g.isLose(next.value) then [Child(g, cur, next.value)] + rest else rest
  }

  function Reverse<T>(s: seq<T>): (r: seq<T>)
    ensures |r| == |s|
    ensures forall i | 0 <= i < |s| :: r[i] == s[|s| - 1 - i]
  {
    if |s| == 0 then [] else Reverse(s[1..]) + [s[0]]
  }

  /** One child entering the frontier, as the loops of `pacmanAgents.py` do it. */
  function Insert<S, M>(p: Policy, kid: Node<S, M>, frontier: seq<Node<S, M>>): seq<Node<S, M>> {
    match p
    case Fifo => frontier + [kid]
    case Lifo => [kid] + frontier
  }

  /** All children entering the frontier at once: a queue keeps them in move
      order behind the old frontier, a stack puts them in front in reverse. */
  function Place<S, M>(p: Policy, kids: seq<Node<S, M>>, frontier: seq<Node<S, M>>): seq<Node<S, M>> {
    match p
    case Fifo => frontier + kids
    case Lifo => Reverse(kids) + frontier
  }

  /** The inner `for action in legalActions` loop, one move at a time: stop
      on a halting successor, skip a losing one, otherwise insert its child. */
  function Expand<S, M>(g: Game<S, M>, p: Policy, winHalts: bool, cur: Node<S, M>,
                        actions: seq<M>, frontier: seq<Node<S, M>>): Expansion<S, M>
    decreases |actions|
  {
    if |actions| == 0 then Grown(frontier)
    else
      var next := g.successor(cur.state, actions[0]);
      if Halts(g, winHalts, next) then Halt
      else if g.isLose(next.value) then Expand(g, p, winHalts, cur, actions[1..], frontier)
      else Expand(g, p, winHalts, cur, actions[1..], Insert(p, Child(g, cur, next.value), frontier))
  }

  /** When the first move does not halt, halting among all moves is halting among the rest. */
  lemma HaltsAnyTail<S, M>(g: Game<S, M>, winHalts: bool, cur: Node<S, M>, actions: seq<M>)
    requires |actions| > 0 && !Halts(g, winHalts, g.successor(cur.state, actions[0]))
    ensures HaltsAny(g, winHalts, cur, actions) <==> HaltsAny(g, winHalts, cur, actions[1..])
  {
    var rest := actions[1..];
    if HaltsAny(g, winHalts, cur, actions) {
      var i :| 0 <= i < |actions| && Halts(g, winHalts, g.successor(cur.state, actions[i]));
      assert rest[i - 1] == actions[i];
    }
    if HaltsAny(g, winHalts, cur, rest) {
      var i :| 0 <= i < |rest| && Halts(g, winHalts, g.successor(cur.state, rest[i]));
      assert actions[i + 1] == rest[i];
    }
  }

  /** Inserting one child and then placing the others is placing them all. */
  lemma PlaceAfterInsert<S, M>(p: Policy, kid: Node<S, M>, kids: seq<Node<S, M>>, frontier: seq<Node<S, M>>)
    ensures Place(p, kids, Insert(p, kid, frontier)) == Place(p, [kid] + kids, frontier)
  {
    match p
    case Fifo =>
      assert (frontier + [kid]) + kids == frontier + ([kid] + kids);
    case Lifo =>
      assert ([kid] + kids)[1..] == kids;
      assert Reverse([kid] + kids) == Reverse(kids) + [kid];
      assert Reverse(kids) + ([kid] + frontier) == (Reverse(kids) + [kid]) + frontier;
  }

  /** The move-by-move loop agrees with the declarative reading: it halts
      exactly when some move's successor halts, and otherwise it adds exactly
      the kept children, placed by the policy. */
  lemma {:induction false} ExpandSpec<S, M>(g: Game<S, M>, p: Policy, winHalts: bool, cur: Node<S, M>,
                                            actions: seq<M>, frontier: seq<Node<S, M>>)
    ensures Expand(g, p, winHalts, cur, actions, frontier)
            == if HaltsAny(g, winHalts, cur, actions) then Halt
               else Grown(Place(p, Kids(g, cur, actions), frontier))
    decreases |actions|
  {
    if |actions| == 0 {
      assert Place(p, [], frontier) == frontier;
    } else {
      var next := g.successor(cur.state, actions[0]);
      var rest := actions[1..];
      if Halts(g, winHalts, next) {
        assert HaltsAny(g, winHalts, cur, actions);
      } else {
        HaltsAnyTail(g, winHalts, cur, actions);
        if g.isLose(next.value) {
          ExpandSpec(g, p, winHalts, cur, rest, frontier);
        } else {
          var kid := Child(g, cur, next.value);
          ExpandSpec(g, p, winHalts, cur, rest, Insert(p, kid, frontier));
          PlaceAfterInsert(p, kid, Kids(g, cur, rest), frontier);
        }
      }
    }
  }

  lemma {:induction false} ReverseMultiset<T>(s: seq<T>)
    ensures multiset(Reverse(s)) == multiset(s)
  {
    if |s| > 0 {
      ReverseMultiset(s[1..]);
      assert s == [s[0]] + s[1..];
    }
  }

  /** Both policies place the same children: the frontiers differ only in order. */
  lemma PlaceSameNodes<S, M>(kids: seq<Node<S, M>>, frontier: seq<Node<S, M>>)
    ensures multiset(Place(Fifo, kids, frontier)) == multiset(Place(Lifo, kids, frontier))
            == multiset(frontier) + multiset(kids)
  {
    ReverseMultiset(kids);
  }

  /** The facts every node built by the searches keeps: its depth is at least
      one, its cost is depth plus heuristic, its root action is a legal root
      move, and below the first level it is not a losing state. */
  ghost predicate Valid<S, M>(g: Game<S, M>, root: S, n: Node<S, M>) {
    && n.depth >= 1
    && n.totalCost == n.depth + g.heuristic(n.state)
    && n.rootAction in g.legalActions(root)
    && (n.depth > 1 ==> !g.isLose(n.state))
  }

  ghost predicate AllValid<S, M>(g: Game<S, M>, root: S, ns: seq<Node<S, M>>) {
    forall i | 0 <= i < |ns| :: Valid(g, root, ns[i])
  }

  /** The seeded frontier holds only valid nodes. */
  lemma SeedValid<S, M>(g: Game<S, M>, root: S)
    requires RootExpandable(g, root)
    ensures AllValid(g, root, RootFrontier(g, root))
    ensures forall i | 0 <= i < |RootFrontier(g, root)| :: RootFrontier(g, root)[i].depth == 1
  {
  }

  /** The kept children of a valid node are valid. */
  lemma KidsValid<S, M>(g: Game<S, M>, root: S, cur: Node<S, M>, actions: seq<M>)
    requires Valid(g, root, cur)
    ensures AllValid(g, root, Kids(g, cur, actions))
  {
    var kids := Kids(g, cur, actions);
    forall j | 0 <= j < |kids| ensures Valid(g, root, kids[j]) {
      assert kids[j].rootAction == cur.rootAction;
    }
  }

  /** Placing valid children into a valid frontier keeps it valid. */
  lemma PlaceValid<S, M>(g: Game<S, M>, root: S, p: Policy, kids: seq<Node<S, M>>, frontier: seq<Node<S, M>>)
    requires AllValid(g, root, kids) && AllValid(g, root, frontier)
    ensures AllValid(g, root, Place(p, kids, frontier))
  {
    match p
    case Fifo =>
    case Lifo =>
      var r := Reverse(kids);
      forall i | 0 <= i < |r| ensures Valid(g, root, r[i]) {
        assert r[i] == kids[|kids| - 1 - i];
      }
  }

  /** Expanding a valid node keeps the frontier valid: children inherit the
      root action, go one level deeper, and are never losing states. */
  lemma ExpandValid<S, M>(g: Game<S, M>, root: S, p: Policy, winHalts: bool, cur: Node<S, M>,
                          frontier: seq<Node<S, M>>)
    requires Valid(g, root, cur) && AllValid(g, root, frontier)
    ensures Expand(g, p, winHalts, cur, g.legalActions(cur.state), frontier).Grown? ==>
              AllValid(g, root, Expand(g, p, winHalts, cur, g.legalActions(cur.state), frontier).frontier)
  {
    var actions := g.legalActions(cur.state);
    ExpandSpec(g, p, winHalts, cur, actions, frontier);
    KidsValid(g, root, cur, actions);
    PlaceValid(g, root, p, Kids(g, cur, actions), frontier);
  }
}
