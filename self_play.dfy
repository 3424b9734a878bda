/** Self-play data generation (self_play.py): games of the network against
    itself, one training record per ply, labelled with the final result. */
module SelfPlay {
  import opened Game
  import opened PvMcts
  import Arena

  /** Games per self-play run (SP_GAME_COUNT). */
  const SpGameCount: nat := 20
  /** Temperature of the search's visit-count distribution (SP_TEMPERATURE). */
  const SpTemperature: real := 0.1
  /** Length of a policy vector: the network's nine outputs, one per cell. */
  const OutputSize: nat := 9

  datatype Option<T> = None | Some(value: T)

  /** One ply of training data: the position before the move, the policy
      over the nine cells, and the value label once the game is over. */
  datatype Record = Record(pieces: seq<Bit>, enemyPieces: seq<Bit>, policies: seq<real>, value: Option<int>)

  /** The random draw of the move among the legal ones (np.random.choice),
      given the game number, the position and the search's distribution. */
  type Chooser = (nat, State, seq<real>) -> int

  ghost predicate LegalChooser(choose: Chooser) {
    forall g: nat, s: State, p: seq<real> :: s.Balanced() && !s.Done() ==> s.IsEmpty(choose(g, s, p))
  }

  /** first_player_value: the result of a finished game for the first player. */
  function FirstPlayerValue(s: State): (v: int)
    requires s.WellFormed()
    ensures -1 <= v <= 1
    ensures v == 0 <==> !s.Lost()
  {
    if s.Lost() then (if s.FirstPlayer() then -1 else 1) else 0
  }

  /** The first player's value is the exact game value of the finished
      position, seen from the first player's side. */
  lemma FirstPlayerValueIsValue(s: State)
    requires s.Balanced() && s.Done()
    ensures FirstPlayerValue(s) == if s.FirstPlayer() then Value(s) else -Value(s)
  {
  }

  /** The first player's value and the 0 / 0.5 / 1 point of the evaluation
      files say the same thing: point = (value + 1) / 2. */
  lemma FirstPlayerValueAndPoint(s: State)
    requires s.WellFormed()
    ensures Arena.FirstPlayerPoint(s, 0.5) == (FirstPlayerValue(s) as real + 1.0) / 2.0
  {
  }

  /** `policies` has nine slots, slot legal[j] holds scores[j] for the pairs
      zip forms, and every other slot is 0. */
  ghost predicate Scattered(policies: seq<real>, legal: seq<int>, scores: seq<real>) {
    && |policies| == OutputSize
    && (forall j :: 0 <= j < |legal| && j < |scores| ==>
          0 <= legal[j] < OutputSize && policies[legal[j]] == scores[j])
    && (forall a :: 0 <= a < OutputSize && (forall j :: 0 <= j < |legal| && j < |scores| ==> legal[j] != a) ==>
          policies[a] == 0.0)
  }

  /** The policy vector of a record: zeros, then scores[j] written to slot legal[j]. */
  method ScatterPolicies(legal: seq<int>, scores: seq<real>) returns (policies: seq<real>)
    requires forall j :: 0 <= j < |legal| ==> 0 <= legal[j] < OutputSize
    requires forall i, j :: 0 <= i < j < |legal| ==> legal[i] < legal[j]
    ensures Scattered(policies, legal, scores)
  {
    policies := seq(OutputSize, _ => 0.0);
    var m := if |legal| < |scores| then |legal| else |scores|;
    var i := 0;
    while i < m
      invariant 0 <= i <= m && |policies| == OutputSize
      invariant forall j :: 0 <= j < i ==> policies[legal[j]] == scores[j]
      invariant forall a :: 0 <= a < OutputSize && (forall j :: 0 <= j < i ==> legal[j] != a) ==>
        policies[a] == 0.0
    {
      policies := policies[legal[i] := scores[i]];
      i := i + 1;
    }
  }

  /** v for even plies, -v for odd ones. */
  function Alternate(v: int, i: nat): int {
    if i % 2 == 0 then v else -v
  }

  /** The labelling loop: record i gets v * (-1)^i as its value; nothing
      else changes. */
  method LabelValues(history: seq<Record>, v: int) returns (labelled: seq<Record>)
    ensures |labelled| == |history|
    ensures forall i :: 0 <= i < |history| ==> labelled[i] == history[i].(value := Some(Alternate(v, i)))
  {
    labelled := history;
    var value := v;
    var i := 0;
    while i < |labelled|
      invariant 0 <= i <= |labelled| == |history|
      invariant value == Alternate(v, i)
      invariant forall j :: 0 <= j < i ==> labelled[j] == history[j].(value := Some(Alternate(v, j)))
      invariant forall j :: i <= j < |history| ==> labelled[j] == history[j]
    {
      labelled := labelled[i := labelled[i].(value := Some(value))];
      value := -value;
      i := i + 1;
    }
  }

  /** The Boltzmann function of pv_mcts_scores, a parameter of the model. */
  type Boltzmann = (seq<int>, real) -> seq<real>

  /** sc is the search distribution of position s. */
  ghost predicate Searched(net: Network, select: Selector, boltzmann: Boltzmann, s: State, sc: seq<real>) {
    && ValidNet(net) && ValidSelector(select) && s.Balanced()
    && sc == SearchScores(net, select, boltzmann, s)
  }

  /** What pv_mcts_scores returns for s at SP_TEMPERATURE, a non-zero
      temperature: the Boltzmann weighting of the root children's visit
      counts after PV_EVALUATE_COUNT simulations from a fresh root. */
  function SearchScores(net: Network, select: Selector, boltzmann: Boltzmann, s: State): seq<real>
    requires ValidNet(net) && ValidSelector(select) && s.Balanced()
  {
    boltzmann(VisitCounts(SearchTree(s, net, select, PvEvaluateCount).children), SpTemperature)
  }

  /** Record i shows position i of the game and the search distribution of
      that position, scattered over the nine cells. */
  ghost predicate Recorded(h: seq<Record>, states: seq<State>, scores: seq<seq<real>>) {
    && |h| == |scores| && |states| == |h| + 1
    && forall i :: 0 <= i < |h| ==>
         && states[i].WellFormed()
         && h[i].pieces == states[i].pieces && h[i].enemyPieces == states[i].enemyPieces
         && Scattered(h[i].policies, states[i].Legal(), scores[i])
  }

  /** The game so far: `moves` were drawn by `choose` from each position's
      search distribution and every position before the last has its record. */
  ghost predicate SelfPlayed(g: nat, choose: Chooser, records: seq<Record>, states: seq<State>,
                             moves: seq<int>, scores: seq<seq<real>>) {
    && IsGame(states, moves) && states[|moves|].Balanced()
    && |records| == |moves|
    && Recorded(records, states, scores)
    && forall i :: 0 <= i < |moves| ==> moves[i] == choose(g, states[i], scores[i])
  }

  /** Every recorded distribution is the search's at its position. */
  ghost predicate AllSearched(net: Network, select: Selector, boltzmann: Boltzmann,
                              states: seq<State>, scores: seq<seq<real>>) {
    && |scores| < |states|
    && forall i :: 0 <= i < |scores| ==> Searched(net, select, boltzmann, states[i], scores[i])
  }

  lemma AllSearchedStep(net: Network, select: Selector, boltzmann: Boltzmann,
                        states: seq<State>, scores: seq<seq<real>>, next: State, sc: seq<real>)
    requires AllSearched(net, select, boltzmann, states, scores) && |scores| + 1 == |states|
    requires Searched(net, select, boltzmann, states[|scores|], sc)
    ensures AllSearched(net, select, boltzmann, states + [next], scores + [sc])
  {
    var states' := states + [next];
    var scores' := scores + [sc];
    forall i | 0 <= i < |scores'|
      ensures Searched(net, select, boltzmann, states'[i], scores'[i])
    {
      assert states'[i] == states[i];
      if i < |scores| {
        assert scores'[i] == scores[i];
      }
    }
  }

  lemma SelfPlayedStart(g: nat, choose: Chooser)
    ensures SelfPlayed(g, choose, [], [Initial()], [], [])
  {
    InitialBalanced();
  }

  lemma SelfPlayedStep(g: nat, choose: Chooser, records: seq<Record>, states: seq<State>,
                       moves: seq<int>, scores: seq<seq<real>>, sc: seq<real>, policies: seq<real>)
    requires LegalChooser(choose)
    requires SelfPlayed(g, choose, records, states, moves, scores) && !states[|moves|].Done()
    requires Scattered(policies, states[|moves|].Legal(), sc)
    ensures var s := states[|moves|]; var a := choose(g, s, sc);
      && s.IsEmpty(a) && |s.Next(a).Legal()| < |s.Legal()|
      && SelfPlayed(g, choose, records + [Record(s.pieces, s.enemyPieces, policies, None)],
                    states + [s.Next(a)], moves + [a], scores + [sc])
  {
    var s := states[|moves|];
    var a := choose(g, s, sc);
    NextShrinks(s, a);
    NextBalanced(s, a);
    IsGameStep(states, moves, a);
    var records' := records + [Record(s.pieces, s.enemyPieces, policies, None)];
    var states' := states + [s.Next(a)];
    var moves' := moves + [a];
    var scores' := scores + [sc];
    assert states'[|moves'|] == s.Next(a);
    forall i | 0 <= i < |moves'|
      ensures moves'[i] == choose(g, states'[i], scores'[i])
      ensures states'[i].WellFormed()
      ensures records'[i].pieces == states'[i].pieces && records'[i].enemyPieces == states'[i].enemyPieces
      ensures Scattered(records'[i].policies, states'[i].Legal(), scores'[i])
    {
      if i < |moves| {
        assert states'[i] == states[i] && moves'[i] == moves[i] && scores'[i] == scores[i] && records'[i] == records[i];
      }
    }
  }

  /** Labelling changes only the value fields, so the records still show the game. */
  lemma LabelledRecorded(records: seq<Record>, history: seq<Record>, states: seq<State>,
                         scores: seq<seq<real>>, v: int)
    requires Recorded(records, states, scores) && |history| == |records|
    requires forall i :: 0 <= i < |records| ==> history[i] == records[i].(value := Some(Alternate(v, i)))
    ensures Recorded(history, states, scores)
  {
    forall i | 0 <= i < |history|
      ensures history[i].pieces == records[i].pieces && history[i].enemyPieces == records[i].enemyPieces
      ensures history[i].policies == records[i].policies
    {
    }
  }

  /** play: one self-play game. */
  method Play(g: nat, net: Network, select: Selector, boltzmann: Boltzmann, choose: Chooser)
    returns (history: seq<Record>, ghost states: seq<State>, ghost moves: seq<int>, ghost scores: seq<seq<real>>)
    requires ValidNet(net) && ValidSelector(select) && LegalChooser(choose)
    ensures IsGame(states, moves) && states[|moves|].WellFormed() && states[|moves|].Done()
    ensures |history| == |moves| <= CellCount
    ensures Recorded(history, states, scores)
    ensures AllSearched(net, select, boltzmann, states, scores)
    ensures forall i :: 0 <= i < |moves| ==> moves[i] == choose(g, states[i], scores[i])
    ensures forall i :: 0 <= i < |history| ==>
      history[i].value == Some(Alternate(FirstPlayerValue(states[|moves|]), i))
  {
    var records := [];
    var state := Initial();
    states := [state];
    moves := [];
    scores := [];
    SelfPlayedStart(g, choose);
    while true
      invariant SelfPlayed(g, choose, records, states, moves, scores) && states[|moves|] == state
      invariant AllSearched(net, select, boltzmann, states, scores)
      decreases |state.Legal()|
    {
      var done := IsDone(state);
      if done {
        break;
      }
      var sc := PvMctsScores(state, net, select, SpTemperature, boltzmann);
      var legal := LegalActions(state);
      LegalExactlyEmpty(state);
      var policies := ScatterPolicies(legal, sc);
      var action := choose(g, state, sc);
      SelfPlayedStep(g, choose, records, states, moves, scores, sc, policies);
      AllSearchedStep(net, select, boltzmann, states, scores, state.Next(action), sc);
      records := records + [Record(state.pieces, state.enemyPieces, policies, None)];
      moves := moves + [action];
      scores := scores + [sc];
      state := state.Next(action);
      states := states + [state];
    }
    GameLength(states, moves);
    var v := FirstPlayerValue(state);
    history := LabelValues(records, v);
    LabelledRecorded(records, history, states, scores, v);
  }

  /** The outcome for the player who was to move at ply i of a game of
      `plies` plies that ended in `last`: the side to move at the end lost,
      and that side moved at ply i exactly when plies - i is even. */
  function MoverOutcome(last: State, plies: nat, i: nat): int
    requires last.WellFormed() && i <= plies
  {
    if last.Lost() then (if (plies - i) % 2 == 0 then -1 else 1) else 0
  }

  /** Labels alternating from the first player's value are the result for
      the player to move at each record: +1 won, -1 lost, 0 drawn. */
  lemma LabelsAreMoverOutcome(states: seq<State>, moves: seq<int>, labels: seq<int>)
    requires IsGame(states, moves) && states[|moves|].WellFormed() && states[|moves|].Done()
    requires |labels| == |moves|
    requires forall i :: 0 <= i < |labels| ==> labels[i] == Alternate(FirstPlayerValue(states[|moves|]), i)
    ensures forall i :: 0 <= i < |labels| ==> labels[i] == MoverOutcome(states[|moves|], |moves|, i)
  {
    GameAlternates(states, moves, |moves|);
  }

  /** The record list of one finished self-play game, with the game it records. */
  ghost predicate PlayedGame(g: nat, h: seq<Record>, net: Network, select: Selector, boltzmann: Boltzmann,
                             choose: Chooser, states: seq<State>, moves: seq<int>, scores: seq<seq<real>>) {
    && IsGame(states, moves) && states[|moves|].WellFormed() && states[|moves|].Done()
    && |h| == |moves| && Recorded(h, states, scores)
    && (forall i :: 0 <= i < |h| ==> h[i].value == Some(Alternate(FirstPlayerValue(states[|moves|]), i)))
    && AllSearched(net, select, boltzmann, states, scores)
    && (forall i :: 0 <= i < |moves| ==> moves[i] == choose(g, states[i], scores[i]))
  }

  ghost predicate GameHistory(g: nat, h: seq<Record>, net: Network, select: Selector, boltzmann: Boltzmann,
                              choose: Chooser) {
    exists states: seq<State>, moves: seq<int>, scores: seq<seq<real>> ::
      PlayedGame(g, h, net, select, boltzmann, choose, states, moves, scores)
  }

  function Concat(hs: seq<seq<Record>>): seq<Record> {
    if hs == [] then [] else Concat(hs[..|hs| - 1]) + hs[|hs| - 1]
  }

  lemma IsGameHistory(g: nat, h: seq<Record>, net: Network, select: Selector, boltzmann: Boltzmann,
                      choose: Chooser, states: seq<State>, moves: seq<int>, scores: seq<seq<real>>)
    requires IsGame(states, moves) && states[|moves|].WellFormed() && states[|moves|].Done()
    requires |h| == |moves| && Recorded(h, states, scores)
    requires forall i :: 0 <= i < |h| ==> h[i].value == Some(Alternate(FirstPlayerValue(states[|moves|]), i))
    requires AllSearched(net, select, boltzmann, states, scores)
    requires forall i :: 0 <= i < |moves| ==> moves[i] == choose(g, states[i], scores[i])
    ensures GameHistory(g, h, net, select, boltzmann, choose)
  {
    assert PlayedGame(g, h, net, select, boltzmann, choose, states, moves, scores);
  }

  /** Every record of a self-play game is labelled, with -1, 0 or 1, and
      consecutive labels have opposite signs. */
  lemma GameHistoryLabels(g: nat, h: seq<Record>, net: Network, select: Selector, boltzmann: Boltzmann,
                          choose: Chooser)
    requires GameHistory(g, h, net, select, boltzmann, choose)
    ensures forall i :: 0 <= i < |h| ==> h[i].value.Some? && -1 <= h[i].value.value <= 1
    ensures forall i :: 1 <= i < |h| ==> h[i].value.value == -h[i - 1].value.value
  {
    var states: seq<State>, moves: seq<int>, scores: seq<seq<real>> :|
      PlayedGame(g, h, net, select, boltzmann, choose, states, moves, scores);
    AlternateLabels(h, FirstPlayerValue(states[|moves|]));
  }

  lemma AlternateLabels(h: seq<Record>, v: int)
    requires -1 <= v <= 1
    requires forall i :: 0 <= i < |h| ==> h[i].value == Some(Alternate(v, i))
    ensures forall i :: 0 <= i < |h| ==> h[i].value.Some? && -1 <= h[i].value.value <= 1
    ensures forall i :: 1 <= i < |h| ==> h[i].value.value == -h[i - 1].value.value
  {
    forall i | 1 <= i < |h|
      ensures h[i].value.value == -h[i - 1].value.value
    {
      assert (i - 1) % 2 != i % 2;
    }
  }

  ghost predicate GameHistories(games: seq<seq<Record>>, net: Network, select: Selector, boltzmann: Boltzmann,
                                choose: Chooser) {
    forall g :: 0 <= g < |games| ==> GameHistory(g, games[g], net, select, boltzmann, choose)
  }

  lemma GameHistoriesStep(games: seq<seq<Record>>, h: seq<Record>, net: Network, select: Selector,
                          boltzmann: Boltzmann, choose: Chooser)
    requires GameHistories(games, net, select, boltzmann, choose)
    requires GameHistory(|games|, h, net, select, boltzmann, choose)
    ensures GameHistories(games + [h], net, select, boltzmann, choose)
  {
    forall g | 0 <= g < |games| + 1
      ensures GameHistory(g, (games + [h])[g], net, select, boltzmann, choose)
    {
      if g < |games| {
        assert (games + [h])[g] == games[g];
      }
    }
  }

  lemma ConcatStep(hs: seq<seq<Record>>, h: seq<Record>)
    ensures Concat(hs + [h]) == Concat(hs) + h
  {
    assert (hs + [h])[..|hs|] == hs;
  }

  /** self_play: SP_GAME_COUNT games, their histories joined in order. */
  method RunSelfPlay(net: Network, select: Selector, boltzmann: Boltzmann, choose: Chooser)
    returns (history: seq<Record>, ghost games: seq<seq<Record>>)
    requires ValidNet(net) && ValidSelector(select) && LegalChooser(choose)
    ensures |games| == SpGameCount && history == Concat(games)
    ensures GameHistories(games, net, select, boltzmann, choose)
  {
    history := [];
    games := [];
    var i := 0;
    while i < SpGameCount
      invariant 0 <= i <= SpGameCount && |games| == i && history == Concat(games)
      invariant GameHistories(games, net, select, boltzmann, choose)
    {
      var h;
      ghost var states, moves, scores;
      h, states, moves, scores := Play(i, net, select, boltzmann, choose);
      IsGameHistory(i, h, net, select, boltzmann, choose, states, moves, scores);
      ConcatStep(games, h);
      GameHistoriesStep(games, h, net, select, boltzmann, choose);
      history := history + h;
      games := games + [h];
      i := i + 1;
    }
  }
}
