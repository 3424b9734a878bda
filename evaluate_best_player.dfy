/** Benchmarks of the best network (evaluate_best_player.py): ten games
    against each of three fixed opponents, draws worth one half. */
module EvaluateBestPlayer {
  import opened Game
  import opened Arena

  /** Games per benchmark (EP_GAME_COUNT). */
  const EpGameCount: nat := 10
  const DrawPoint: real := 0.5

  /** evaluate_algorithm_of: the average points of the first selector. */
  method EvaluateAlgorithmOf(a: Player, b: Player) returns (average: real)
    requires LegalPlayer(a) && LegalPlayer(b)
    ensures average == TotalPoint(EpGameCount, a, b, DrawPoint) / EpGameCount as real
    ensures 0.0 <= average <= 1.0
  {
    average := Arena.EvaluateAlgorithmOf(EpGameCount, a, b, DrawPoint);
  }

  /** evaluate_best_player: the searching player against random, alpha-beta
      and Monte Carlo opponents, in that order. */
  method EvaluateBestPlayer(pvMcts: Player, random: Player, alphaBeta: Player, mcts: Player)
    returns (vsRandom: real, vsAlphaBeta: real, vsMcts: real)
    requires LegalPlayer(pvMcts) && LegalPlayer(random) && LegalPlayer(alphaBeta) && LegalPlayer(mcts)
    ensures vsRandom == TotalPoint(EpGameCount, pvMcts, random, DrawPoint) / EpGameCount as real
    ensures vsAlphaBeta == TotalPoint(EpGameCount, pvMcts, alphaBeta, DrawPoint) / EpGameCount as real
    ensures vsMcts == TotalPoint(EpGameCount, pvMcts, mcts, DrawPoint) / EpGameCount as real
  {
    vsRandom := EvaluateAlgorithmOf(pvMcts, random);
    vsAlphaBeta := EvaluateAlgorithmOf(pvMcts, alphaBeta);
    vsMcts := EvaluateAlgorithmOf(pvMcts, mcts);
  }

  /** With draws worth one half, a game's term is 1 for a win of the first
      selector, 0 for a loss and 0.5 for a draw, in either seat. */
  lemma GamePointIsResultOfA(g: nat, a: Player, b: Player)
    requires LegalPlayer(a) && LegalPlayer(b)
    ensures var f := SeatedFinal(g, a, b);
      GamePoint(g, a, b, DrawPoint) ==
        if !f.Lost() then 0.5 else if f.FirstPlayer() == (g % 2 == 0) then 0.0 else 1.0
  {
    GamePointIsPointsOfA(g, a, b, DrawPoint);
  }
}
