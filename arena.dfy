/** Games between two move selectors and the seat-swapped scoring shared by
    evaluate_network.py, evaluate_best_player.py and test1.py.

    A selector is a function of the game number and the position; the game
    number stands for the random state a randomised selector draws on, so
    different games of one evaluation may go differently. */
module Arena {
  import opened Scores
  import opened Game

  type Player = (nat, State) -> int

  /** The selector always answers with an empty cell of an unfinished position. */
  ghost predicate LegalPlayer(f: Player) {
    forall g: nat, s: State :: s.Balanced() && !s.Done() ==> s.IsEmpty(f(g, s))
  }

  /** first_player_point: what the first player scored in a finished game;
      the three evaluation files differ only in what a draw is worth. */
  function FirstPlayerPoint(s: State, drawPoint: real): (r: real)
    requires s.WellFormed()
    ensures r == 0.0 || r == 1.0 || r == drawPoint
    ensures s.Lost() ==> (r == 1.0 <==> !s.FirstPlayer())
    ensures s.Lost() && s.FirstPlayer() ==> r == 0.0
    ensures !s.Lost() ==> r == drawPoint
  {
    if s.Lost() then (if s.FirstPlayer() then 0.0 else 1.0) else drawPoint
  }

  /** The position where the game from s ends when `first` plays the first
      player's turns and `second` the others. */
  function FinalState(g: nat, s: State, first: Player, second: Player): (r: State)
    requires s.Balanced() && LegalPlayer(first) && LegalPlayer(second)
    decreases |s.Legal()|
    ensures r.Balanced() && r.Done()
  {
    if s.Done() then s
    else
      var a := if s.FirstPlayer() then first(g, s) else second(g, s);
      NextShrinks(s, a);
      NextBalanced(s, a);
      FinalState(g, s.Next(a), first, second)
  }

  /** `moves` is a game so far in which each side moved with its selector,
      and its last position ends the same way as the whole game. */
  ghost predicate Played(g: nat, first: Player, second: Player, states: seq<State>, moves: seq<int>)
    requires LegalPlayer(first) && LegalPlayer(second)
  {
    && IsGame(states, moves)
    && states[|moves|].Balanced()
    && FinalState(g, states[|moves|], first, second) == InitialFinal(g, first, second)
    && MovedBy(g, first, second, states, moves)
  }

  /** Every move was the choice of the selector whose turn it was. */
  ghost predicate MovedBy(g: nat, first: Player, second: Player, states: seq<State>, moves: seq<int>)
    requires |states| == |moves| + 1
  {
    forall i :: 0 <= i < |moves| ==>
      moves[i] == if states[i].FirstPlayer() then first(g, states[i]) else second(g, states[i])
  }

  lemma MovedByStep(g: nat, first: Player, second: Player, states: seq<State>, moves: seq<int>, next: State)
    requires |states| == |moves| + 1 && MovedBy(g, first, second, states, moves)
    ensures var s := states[|moves|];
      MovedBy(g, first, second, states + [next],
              moves + [if s.FirstPlayer() then first(g, s) else second(g, s)])
  {
    var s := states[|moves|];
    var states' := states + [next];
    var moves' := moves + [if s.FirstPlayer() then first(g, s) else second(g, s)];
    forall i | 0 <= i < |moves'|
      ensures moves'[i] == if states'[i].FirstPlayer() then first(g, states'[i]) else second(g, states'[i])
    {
      if i < |moves| {
        assert states'[i] == states[i] && moves'[i] == moves[i];
      }
    }
  }

  lemma PlayedStart(g: nat, first: Player, second: Player)
    requires LegalPlayer(first) && LegalPlayer(second)
    ensures Played(g, first, second, [Initial()], [])
  {
    InitialBalanced();
  }

  lemma PlayedStep(g: nat, first: Player, second: Player, states: seq<State>, moves: seq<int>, action: int)
    requires LegalPlayer(first) && LegalPlayer(second)
    requires Played(g, first, second, states, moves) && !states[|moves|].Done()
    requires action == if states[|moves|].FirstPlayer() then first(g, states[|moves|]) else second(g, states[|moves|])
    ensures states[|moves|].IsEmpty(action) && |states[|moves|].Next(action).Legal()| < |states[|moves|].Legal()|
    ensures Played(g, first, second, states + [states[|moves|].Next(action)], moves + [action])
  {
    var s := states[|moves|];
    NextShrinks(s, action);
    NextBalanced(s, action);
    IsGameStep(states, moves, action);
    var states' := states + [s.Next(action)];
    var moves' := moves + [action];
    assert FinalState(g, s, first, second) == FinalState(g, s.Next(action), first, second);
    assert states'[|moves'|] == s.Next(action);
    MovedByStep(g, first, second, states, moves, s.Next(action));
  }

  /** play: from the empty board, the selector of the side to move picks a
      cell until the game is over; the result is the first player's points. */
  method Play(g: nat, first: Player, second: Player, drawPoint: real)
    returns (point: real, ghost states: seq<State>, ghost moves: seq<int>)
    requires LegalPlayer(first) && LegalPlayer(second)
    ensures point == FirstPlayerPoint(InitialFinal(g, first, second), drawPoint)
    ensures Played(g, first, second, states, moves)
    ensures states[|moves|] == InitialFinal(g, first, second)
    ensures |moves| <= CellCount
  {
    var state := Initial();
    states := [state];
    moves := [];
    PlayedStart(g, first, second);
    while true
      invariant Played(g, first, second, states, moves) && states[|moves|] == state
      decreases |state.Legal()|
    {
      var done := IsDone(state);
      if done {
        break;
      }
      var action := if state.FirstPlayer() then first(g, state) else second(g, state);
      PlayedStep(g, first, second, states, moves, action);
      moves := moves + [action];
      state := state.Next(action);
      states := states + [state];
    }
    GameLength(states, moves);
    point := FirstPlayerPoint(state, drawPoint);
  }

  function InitialFinal(g: nat, first: Player, second: Player): (r: State)
    requires LegalPlayer(first) && LegalPlayer(second)
    ensures r.Balanced() && r.Done()
  {
    InitialBalanced();
    FinalState(g, Initial(), first, second)
  }

  /** The points game g gives to `a`: in even games `a` moves first and gets
      the first player's points; in odd games the seats are swapped and `a`
      gets the complement. */
  function GamePoint(g: nat, a: Player, b: Player, drawPoint: real): (r: real)
    requires LegalPlayer(a) && LegalPlayer(b)
    ensures 0.0 <= drawPoint <= 1.0 ==> 0.0 <= r <= 1.0
  {
    if g % 2 == 0 then FirstPlayerPoint(InitialFinal(g, a, b), drawPoint)
    else 1.0 - FirstPlayerPoint(InitialFinal(g, b, a), drawPoint)
  }

  /** The final position of game g with the seating the evaluation uses. */
  function SeatedFinal(g: nat, a: Player, b: Player): (r: State)
    requires LegalPlayer(a) && LegalPlayer(b)
    ensures r.Balanced() && r.Done()
  {
    if g % 2 == 0 then InitialFinal(g, a, b) else InitialFinal(g, b, a)
  }

  /** A game's term is what `a` earned: 1 for a win of `a`, 0 for a loss, and
      for a draw the draw point when `a` is first and its complement when `a`
      is second. `a` is to move at the end exactly when it moved first in an
      even game or second in an odd one. */
  lemma GamePointIsPointsOfA(g: nat, a: Player, b: Player, drawPoint: real)
    requires LegalPlayer(a) && LegalPlayer(b)
    ensures var f := SeatedFinal(g, a, b);
      GamePoint(g, a, b, drawPoint) ==
        if f.Lost() then (if f.FirstPlayer() == (g % 2 == 0) then 0.0 else 1.0)
        else if g % 2 == 0 then drawPoint else 1.0 - drawPoint
  {
  }

  /** The points `a` earned in games 0 .. n-1. */
  function Points(n: nat, a: Player, b: Player, drawPoint: real): (r: seq<real>)
    requires LegalPlayer(a) && LegalPlayer(b)
    ensures |r| == n
    ensures forall g :: 0 <= g < n ==> r[g] == GamePoint(g, a, b, drawPoint)
  {
    seq(n, g requires 0 <= g < n => GamePoint(g, a, b, drawPoint))
  }

  /** total_point after n games. */
  function TotalPoint(n: nat, a: Player, b: Player, drawPoint: real): real
    requires LegalPlayer(a) && LegalPlayer(b)
  {
    Sum(Points(n, a, b, drawPoint))
  }

  lemma {:induction false} SumBounds(xs: seq<real>)
    requires forall g :: 0 <= g < |xs| ==> 0.0 <= xs[g] <= 1.0
    ensures 0.0 <= Sum(xs) <= |xs| as real
  {
    if xs != [] {
      SumBounds(xs[..|xs| - 1]);
    }
  }

  /** With a draw worth between 0 and 1, n games give between 0 and n points. */
  lemma TotalPointBounds(n: nat, a: Player, b: Player, drawPoint: real)
    requires LegalPlayer(a) && LegalPlayer(b) && 0.0 <= drawPoint <= 1.0
    ensures 0.0 <= TotalPoint(n, a, b, drawPoint) <= n as real
  {
    SumBounds(Points(n, a, b, drawPoint));
  }

  lemma AverageBounds(total: real, n: real)
    requires 0.0 < n && 0.0 <= total <= n
    ensures 0.0 <= total / n <= 1.0
  {
    assert total / n * n == total;
  }

  /** p, 1 - p, p, 1 - p, ... sums to one per pair. */
  lemma {:induction false} SumAlternating(xs: seq<real>, m: nat, p: real)
    requires |xs| == 2 * m
    requires forall g :: 0 <= g < |xs| ==> xs[g] == if g % 2 == 0 then p else 1.0 - p
    ensures Sum(xs) == m as real
  {
    if m > 0 {
      var ys := xs[..2 * m - 1];
      assert ys[..2 * m - 2] == xs[..2 * m - 2];
      SumAlternating(xs[..2 * m - 2], m - 1, p);
      assert (2 * m - 2) % 2 == 0 && (2 * m - 1) % 2 == 1;
    }
  }

  /** Seat-swap cancellation: when the first player scores the same p in
      every game whoever sits there, 2m games give exactly m points. */
  lemma SeatSwapCancels(m: nat, a: Player, b: Player, drawPoint: real, p: real)
    requires LegalPlayer(a) && LegalPlayer(b)
    requires forall g: nat :: FirstPlayerPoint(InitialFinal(g, a, b), drawPoint) == p
    requires forall g: nat :: FirstPlayerPoint(InitialFinal(g, b, a), drawPoint) == p
    ensures TotalPoint(2 * m, a, b, drawPoint) == m as real
  {
    var xs := Points(2 * m, a, b, drawPoint);
    forall g | 0 <= g < |xs|
      ensures xs[g] == if g % 2 == 0 then p else 1.0 - p
    {
    }
    SumAlternating(xs, m, p);
  }

  /** The evaluation loop: `count` games with alternating seats; the result
      is the average of the points `a` earned. */
  method EvaluateAlgorithmOf(count: nat, a: Player, b: Player, drawPoint: real)
    returns (average: real)
    requires count > 0 && LegalPlayer(a) && LegalPlayer(b)
    ensures average == TotalPoint(count, a, b, drawPoint) / count as real
    ensures 0.0 <= drawPoint <= 1.0 ==> 0.0 <= average <= 1.0
  {
    var total := 0.0;
    var i := 0;
    while i < count
      invariant 0 <= i <= count
      invariant total == Sum(Points(i, a, b, drawPoint))
    {
      assert Points(i + 1, a, b, drawPoint)[..i] == Points(i, a, b, drawPoint);
      var point;
      ghost var states, moves;
      if i % 2 == 0 {
        point, states, moves := Play(i, a, b, drawPoint);
        total := total + point;
      } else {
        point, states, moves := Play(i, b, a, drawPoint);
        total := total + (1.0 - point);
      }
      i := i + 1;
    }
    average := total / count as real;
    if 0.0 <= drawPoint <= 1.0 {
      TotalPointBounds(count, a, b, drawPoint);
      AverageBounds(total, count as real);
    }
  }
}
