/** The Monte Carlo player's benchmark script (test1.py): a hundred games
    against each of two opponents, with a draw scoring 1 for the first player. */
module Test1 {
  import opened Game
  import opened Arena

  /** Games per benchmark (EP_GAME_COUNT in this script). */
  const EpGameCount: nat := 100
  /** A draw is worth as much as a win to the first player here. */
  const DrawPoint: real := 1.0

  /** A drawn game gives the first selector 1 when it sits first and 0 when
      the seats are swapped. */
  lemma DrawnGameContribution(g: nat, a: Player, b: Player)
    requires LegalPlayer(a) && LegalPlayer(b)
    requires !SeatedFinal(g, a, b).Lost()
    ensures GamePoint(g, a, b, DrawPoint) == if g % 2 == 0 then 1.0 else 0.0
  {
  }

  /** If every game is drawn, the average is exactly one half. */
  lemma AllDrawsAverageHalf(a: Player, b: Player)
    requires LegalPlayer(a) && LegalPlayer(b)
    requires forall g: nat :: !InitialFinal(g, a, b).Lost() && !InitialFinal(g, b, a).Lost()
    ensures TotalPoint(EpGameCount, a, b, DrawPoint) / EpGameCount as real == 0.5
  {
    SeatSwapCancels(50, a, b, DrawPoint, 1.0);
  }

  /** evaluate_algorithm_of: the average points of the first selector. */
  method EvaluateAlgorithmOf(a: Player, b: Player) returns (average: real)
    requires LegalPlayer(a) && LegalPlayer(b)
    ensures average == TotalPoint(EpGameCount, a, b, DrawPoint) / EpGameCount as real
    ensures 0.0 <= average <= 1.0
  {
    average := Arena.EvaluateAlgorithmOf(EpGameCount, a, b, DrawPoint);
  }

  /** The script's two benchmarks: Monte Carlo against random, then against
      alpha-beta. */
  method Benchmarks(mcts: Player, random: Player, alphaBeta: Player)
    returns (vsRandom: real, vsAlphaBeta: real)
    requires LegalPlayer(mcts) && LegalPlayer(random) && LegalPlayer(alphaBeta)
    ensures vsRandom == TotalPoint(EpGameCount, mcts, random, DrawPoint) / EpGameCount as real
    ensures vsAlphaBeta == TotalPoint(EpGameCount, mcts, alphaBeta, DrawPoint) / EpGameCount as real
  {
    vsRandom := EvaluateAlgorithmOf(mcts, random);
    vsAlphaBeta := EvaluateAlgorithmOf(mcts, alphaBeta);
  }
}
