/**
  The two agents that do not search: `RandomAgent` picks any legal move and
  `OneStepLookAheadAgent` picks, among the legal moves, one whose successor has
  the least admissible heuristic. A random draw becomes a nondeterministic
  choice of an index: the model promises only which moves can come back.
*/
module SimpleAgents {
  import opened Wrappers
  import opened Adapter

  /** `RandomAgent.getAction`: `actions[random.randint(0, len(actions) - 1)]`. */
  method RandomAgent<S, M>(g: Game<S, M>, s: S) returns (a: M)
    requires |g.legalActions(s)| > 0
    ensures a in g.legalActions(s)
  {
    var actions := g.legalActions(s);
    var k :| 0 <= k <= |actions| - 1;
    a := actions[k];
  }

  /** The score of a candidate move: the heuristic of its successor. */
  function Score<S, M>(g: Game<S, M>, s: S, a: M): int
    requires g.successor(s, a).Some?
  {
    g.heuristic(g.successor(s, a).value)
  }

  /** The scores of `actions`, in order (the first components of `scored`). */
  function Scores<S, M>(g: Game<S, M>, s: S, actions: seq<M>): (r: seq<int>)
    requires forall a | a in actions :: g.successor(s, a).Some?
    ensures |r| == |actions|
    ensures forall i | 0 <= i < |actions| :: r[i] == Score(g, s, actions[i])
  {
    if |actions| == 0 then [] else [Score(g, s, actions[0])] + Scores(g, s, actions[1..])
  }

  /** `min(...)` of a non-empty list of scores. */
  function MinOf(xs: seq<int>): (m: int)
    requires |xs| > 0
    ensures m in xs
    ensures forall i | 0 <= i < |xs| :: m <= xs[i]
  {
    if |xs| == 1 then xs[0]
    else
      var rest := MinOf(xs[1..]);
      if xs[0] <= rest then xs[0] else rest
  }

  /** `bestActions`: the moves of `actions` whose score is `best`, in order. */
  function BestActions<S, M>(g: Game<S, M>, s: S, actions: seq<M>, best: int): (r: seq<M>)
    requires forall a | a in actions :: g.successor(s, a).Some?
    ensures forall a | a in r :: a in actions && Score(g, s, a) == best
    ensures forall a | a in actions && Score(g, s, a) == best :: a in r
  {
    if |actions| == 0 then []
    else
      var rest := BestActions(g, s, actions[1..], best);
      assert forall a | a in actions[1..] :: a in actions;
      assert actions == [actions[0]] + actions[1..];
      if Score(g, s, actions[0]) == best then [actions[0]] + rest else rest
  }

  /** The tie set is never empty: the minimum is attained by some legal move. */
  lemma BestActionsNonEmpty<S, M>(g: Game<S, M>, s: S)
    requires |g.legalActions(s)| > 0 && RootExpandable(g, s)
    ensures |BestActions(g, s, g.legalActions(s), MinOf(Scores(g, s, g.legalActions(s))))| > 0
  {
    var actions := g.legalActions(s);
    var scores := Scores(g, s, actions);
    var i :| 0 <= i < |scores| && scores[i] == MinOf(scores);
    assert actions[i] in BestActions(g, s, actions, MinOf(scores));
  }

  /** `OneStepLookAheadAgent.getAction`. Each candidate is scored by the
      heuristic of its successor (the comprehension on pacmanAgents.py:44
      rebinds `state` to the successor), the least score is found, and one
      of the moves attaining it is drawn at random. */
  method OneStepLookAheadAgent<S, M>(g: Game<S, M>, s: S) returns (a: M)
    requires |g.legalActions(s)| > 0
    requires RootExpandable(g, s)
    ensures a in g.legalActions(s)
    ensures forall b | b in g.legalActions(s) :: Score(g, s, a) <= Score(g, s, b)
  {
    var legal := g.legalActions(s);
    var scored := Scores(g, s, legal);
    var bestScore := MinOf(scored);
    var bestActions := BestActions(g, s, legal, bestScore);
    BestActionsNonEmpty(g, s);
    var k :| 0 <= k < |bestActions|;
    a := bestActions[k];
    forall b | b in legal ensures Score(g, s, a) <= Score(g, s, b) {
      var i :| 0 <= i < |legal| && legal[i] == b;
      assert scored[i] == Score(g, s, b);
    }
  }
}
