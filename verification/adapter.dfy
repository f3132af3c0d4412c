/**
  The game engine as the agents see it. The agents never look inside a game
  state: they only ask for the legal Pacman moves, the successor of a move
  (which may be absent), whether a state is won or lost, and the admissible
  heuristic of a state. Each of these becomes a field of `Game`, a record of
  pure functions over an abstract state type `S` and move type `M`.
*/
module Adapter {
  import opened Wrappers

  datatype Game<!S, !M> = Game(
    legalActions: S -> seq<M>,       // getLegalPacmanActions
    successor: (S, M) -> Option<S>,  // generatePacmanSuccessor; None once the engine refuses
    isWin: S -> bool,
    isLose: S -> bool,
    heuristic: S -> int)             // admissibleHeuristic, lower is better

  /** Every legal move of `s` has a successor, so the heuristic of each can be taken. */
  ghost predicate RootExpandable<S, M>(g: Game<S, M>, s: S) {
    forall a | a in g.legalActions(s) :: g.successor(s, a).Some?
  }
}
