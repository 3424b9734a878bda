/** Promotion of the latest network (evaluate_network.py): ten games against
    the best network with alternating seats; promote on an average above 0.5. */
module EvaluateNetwork {
  import opened Scores
  import opened Game
  import opened Arena

  /** Games per evaluation (EN_GAME_COUNT). */
  const EnGameCount: nat := 10
  /** What a draw is worth to the first player. */
  const DrawPoint: real := 0.5

  /** The promotion rule: strictly more than half the points. */
  predicate Promotes(total: real) {
    total / EnGameCount as real > 0.5
  }

  /** evaluate_network: the latest selector plays the best one and wins
      promotion with an average above one half. */
  method EvaluateNetwork(latest: Player, best: Player) returns (promote: bool, average: real)
    requires LegalPlayer(latest) && LegalPlayer(best)
    ensures average == TotalPoint(EnGameCount, latest, best, DrawPoint) / EnGameCount as real
    ensures 0.0 <= average <= 1.0
    ensures promote <==> Promotes(TotalPoint(EnGameCount, latest, best, DrawPoint))
  {
    average := EvaluateAlgorithmOf(EnGameCount, latest, best, DrawPoint);
    promote := average > 0.5;
  }

  /** Exactly half the points is not enough. */
  lemma HalfDoesNotPromote(latest: Player, best: Player)
    requires LegalPlayer(latest) && LegalPlayer(best)
    requires TotalPoint(EnGameCount, latest, best, DrawPoint) == 5.0
    ensures !Promotes(TotalPoint(EnGameCount, latest, best, DrawPoint))
  {
  }

  /** When the seat alone decides every game, the latest network scores
      exactly 0.5 on average and is not promoted. */
  lemma SeatDecidedDoesNotPromote(latest: Player, best: Player, p: real)
    requires LegalPlayer(latest) && LegalPlayer(best)
    requires forall g: nat :: FirstPlayerPoint(InitialFinal(g, latest, best), DrawPoint) == p
    requires forall g: nat :: FirstPlayerPoint(InitialFinal(g, best, latest), DrawPoint) == p
    ensures TotalPoint(EnGameCount, latest, best, DrawPoint) == 5.0
    ensures !Promotes(TotalPoint(EnGameCount, latest, best, DrawPoint))
  {
    SeatSwapCancels(5, latest, best, DrawPoint, p);
  }

  /** A latest network that wins every game is promoted. */
  lemma WinningAllPromotes(latest: Player, best: Player)
    requires LegalPlayer(latest) && LegalPlayer(best)
    requires forall g: nat :: GamePoint(g, latest, best, DrawPoint) == 1.0
    ensures TotalPoint(EnGameCount, latest, best, DrawPoint) == EnGameCount as real
    ensures Promotes(TotalPoint(EnGameCount, latest, best, DrawPoint))
  {
    SumOnes(Points(EnGameCount, latest, best, DrawPoint));
  }

  lemma {:induction false} SumOnes(xs: seq<real>)
    requires forall g :: 0 <= g < |xs| ==> xs[g] == 1.0
    ensures Sum(xs) == |xs| as real
  {
    if xs != [] {
      SumOnes(xs[..|xs| - 1]);
    }
  }

  // ---------------------------------------------------------------------------
  // The evaluation as written: `play` takes a parameter it never reads and
  // plays the selector pair imported from test1 instead.

  /** The term of game g as written: seats are "swapped" by passing the
      reversed pair to a play that ignores it. */
  function AsWrittenPoint(g: nat, imported0: Player, imported1: Player): real
    requires LegalPlayer(imported0) && LegalPlayer(imported1)
  {
    var point := FirstPlayerPoint(InitialFinal(g, imported0, imported1), DrawPoint);
    if g % 2 == 0 then point else 1.0 - point
  }

  function AsWrittenTotal(n: nat, imported0: Player, imported1: Player): real
    requires LegalPlayer(imported0) && LegalPlayer(imported1)
  {
    Sum(seq(n, g requires 0 <= g < n => AsWrittenPoint(g, imported0, imported1)))
  }

  /** play as written: the pair it is given is never used. */
  method PlayAsWritten(g: nat, model: (Player, Player), imported: (Player, Player)) returns (point: real)
    requires LegalPlayer(imported.0) && LegalPlayer(imported.1)
    ensures point == FirstPlayerPoint(InitialFinal(g, imported.0, imported.1), DrawPoint)
  {
    ghost var states, moves;
    point, states, moves := Play(g, imported.0, imported.1, DrawPoint);
  }

  /** evaluate_network as written: the decision depends only on the imported
      pair, whatever the two networks are. */
  method EvaluateNetworkAsWritten(latest: Player, best: Player, imported0: Player, imported1: Player)
    returns (promote: bool)
    requires LegalPlayer(imported0) && LegalPlayer(imported1)
    ensures promote <==> Promotes(AsWrittenTotal(EnGameCount, imported0, imported1))
  {
    var total := 0.0;
    var i := 0;
    while i < EnGameCount
      invariant 0 <= i <= EnGameCount
      invariant total == Sum(seq(i, g requires 0 <= g < i => AsWrittenPoint(g, imported0, imported1)))
    {
      ghost var xs := seq(i + 1, g requires 0 <= g < i + 1 => AsWrittenPoint(g, imported0, imported1));
      assert xs[..i] == seq(i, g requires 0 <= g < i => AsWrittenPoint(g, imported0, imported1));
      var point;
      if i % 2 == 0 {
        point := PlayAsWritten(i, (latest, best), (imported0, imported1));
        total := total + point;
      } else {
        point := PlayAsWritten(i, (best, latest), (imported0, imported1));
        total := total + (1.0 - point);
      }
      i := i + 1;
    }
    promote := total / EnGameCount as real > 0.5;
  }

  /** The discrepancy: a latest network that wins every game against the
      best one is promoted by the intended evaluation, but not by the code as
      written when the imported pair always draws. */
  lemma AsWrittenMissesStrongerNetwork(latest: Player, best: Player, imported0: Player, imported1: Player)
    requires LegalPlayer(latest) && LegalPlayer(best)
    requires LegalPlayer(imported0) && LegalPlayer(imported1)
    requires forall g: nat :: GamePoint(g, latest, best, DrawPoint) == 1.0
    requires forall g: nat :: !InitialFinal(g, imported0, imported1).Lost()
    ensures Promotes(TotalPoint(EnGameCount, latest, best, DrawPoint))
    ensures !Promotes(AsWrittenTotal(EnGameCount, imported0, imported1))
  {
    WinningAllPromotes(latest, best);
    var xs := seq(EnGameCount, g requires 0 <= g < EnGameCount => AsWrittenPoint(g, imported0, imported1));
    assert forall g :: 0 <= g < |xs| ==> xs[g] == 0.5;
    SumAlternating(xs, 5, 0.5);
  }
}
