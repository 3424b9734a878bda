/** Tic-tac-toe rules and exact game-tree search (game.py).

    A state holds two 9-cell occupancy lists: `pieces` for the side to move and
    `enemyPieces` for the side that moved last; cell (x, y) is index x + 3 * y.
    States are values: `Next` builds a new state and swaps the two lists. */
module Game {
  import opened Scores

  /** One cell of an occupancy list: 1 for a mark, 0 for none. */
  type Bit = b: int | 0 <= b <= 1

  const CellCount: nat := 9

  /** Number of 1 cells. */
  function Count(cells: seq<Bit>): (r: nat)
    ensures r <= |cells|
  {
    if cells == [] then 0
    else Count(cells[..|cells| - 1]) + (if cells[|cells| - 1] == 1 then 1 else 0)
  }

  /** The indices below n that are empty in both lists, in increasing order. */
  function Empties(p: seq<Bit>, e: seq<Bit>, n: nat): (r: seq<int>)
    requires n <= |p| && n <= |e|
    ensures |r| <= n
    ensures forall i :: 0 <= i < |r| ==> 0 <= r[i] < n && p[r[i]] == 0 && e[r[i]] == 0
  {
    if n == 0 then [] else Empties(p, e, n - 1) + (if p[n - 1] == 0 && e[n - 1] == 0 then [n - 1] else [])
  }

  /** Every empty cell below n is listed, and the list is increasing. */
  lemma {:induction false} EmptiesComplete(p: seq<Bit>, e: seq<Bit>, n: nat)
    requires n <= |p| && n <= |e|
    ensures forall a :: 0 <= a < n && p[a] == 0 && e[a] == 0 ==> a in Empties(p, e, n)
    ensures forall i, j :: 0 <= i < j < |Empties(p, e, n)| ==> Empties(p, e, n)[i] < Empties(p, e, n)[j]
  {
    if n > 0 {
      EmptiesComplete(p, e, n - 1);
    }
  }

  /** The cells (x, y), (x + dx, y + dy), ... (m of them) are all on the board
      and held by the owner of `e`. */
  predicate LineFrom(e: seq<Bit>, x: int, y: int, dx: int, dy: int, m: nat)
    requires |e| == CellCount
    decreases m
  {
    m == 0 ||
    (0 <= x <= 2 && 0 <= y <= 2 && e[x + 3 * y] != 0 && LineFrom(e, x + dx, y + dy, dx, dy, m - 1))
  }

  /** The owner of `e` holds row r (cells 3r, 3r+1, 3r+2). */
  predicate RowOwned(e: seq<Bit>, r: int)
    requires |e| == CellCount && 0 <= r < 3
  {
    e[3 * r] != 0 && e[3 * r + 1] != 0 && e[3 * r + 2] != 0
  }

  /** The owner of `e` holds column c (cells c, c+3, c+6). */
  predicate ColOwned(e: seq<Bit>, c: int)
    requires |e| == CellCount && 0 <= c < 3
  {
    e[c] != 0 && e[c + 3] != 0 && e[c + 6] != 0
  }

  /** The owner of `e` holds a diagonal (cells 0, 4, 8 or 2, 4, 6). */
  predicate DiagonalOwned(e: seq<Bit>)
    requires |e| == CellCount
  {
    (e[0] != 0 && e[4] != 0 && e[8] != 0) || (e[2] != 0 && e[4] != 0 && e[6] != 0)
  }

  datatype State = State(pieces: seq<Bit>, enemyPieces: seq<Bit>) {

    predicate WellFormed() {
      |pieces| == CellCount && |enemyPieces| == CellCount
    }

    /** No cell is marked by both sides. */
    predicate Disjoint()
      requires WellFormed()
    {
      forall i :: 0 <= i < CellCount ==> pieces[i] == 0 || enemyPieces[i] == 0
    }

    /** The invariant every position of a game from the empty board keeps. */
    predicate Balanced() {
      WellFormed() && Disjoint() && 0 <= Count(enemyPieces) - Count(pieces) <= 1
    }

    /** The side to move has lost: the other side holds one of the eight
        lines (a row, a column or a diagonal). */
    predicate Lost()
      requires WellFormed()
    {
      || (exists r :: 0 <= r < 3 && RowOwned(enemyPieces, r))
      || (exists c :: 0 <= c < 3 && ColOwned(enemyPieces, c))
      || DiagonalOwned(enemyPieces)
    }

    /** All nine cells are marked; whether the game was lost is not looked at. */
    predicate Drawn()
      requires WellFormed()
    {
      Count(pieces) + Count(enemyPieces) == CellCount
    }

    predicate Done()
      requires WellFormed()
    {
      Lost() || Drawn()
    }

    /** Both sides have the same number of marks, so the side to move started. */
    predicate FirstPlayer() {
      Count(pieces) == Count(enemyPieces)
    }

    /** Cell a exists and neither side has marked it. */
    predicate IsEmpty(a: int) {
      0 <= a < |pieces| && 0 <= a < |enemyPieces| && pieces[a] == 0 && enemyPieces[a] == 0
    }

    function Legal(): seq<int>
      requires WellFormed()
    {
      Empties(pieces, enemyPieces, |pieces|)
    }

    /** The position after the side to move marks cell `a`, seen by the opponent. */
    function Next(a: int): State
      requires 0 <= a < |pieces|
    {
      State(enemyPieces, pieces[a := 1])
    }
  }

  /** The empty board, first player to move. */
  function Initial(): State {
    State(seq(CellCount, _ => 0), seq(CellCount, _ => 0))
  }

  // ---------------------------------------------------------------------------
  // Lemmas about the rules

  lemma {:induction false} CountMark(c: seq<Bit>, a: int)
    requires 0 <= a < |c| && c[a] == 0
    ensures Count(c[a := 1]) == Count(c) + 1
  {
    var n := |c|;
    if a == n - 1 {
      assert c[a := 1][..n - 1] == c[..n - 1];
    } else {
      assert c[a := 1][..n - 1] == c[..n - 1][a := 1];
      CountMark(c[..n - 1], a);
    }
  }

  lemma {:induction false} EmptiesAfterMark(p: seq<Bit>, e: seq<Bit>, a: int, n: nat)
    requires |p| == |e| && 0 <= a < |p| && p[a] == 0 && e[a] == 0 && n <= |p|
    ensures |Empties(e, p[a := 1], n)| == |Empties(p, e, n)| - (if a < n then 1 else 0)
  {
    if n > 0 {
      EmptiesAfterMark(p, e, a, n - 1);
    }
  }

  lemma {:induction false} EmptiesAndCounts(p: seq<Bit>, e: seq<Bit>, n: nat)
    requires |p| == |e| && n <= |p|
    requires forall i :: 0 <= i < |p| ==> p[i] == 0 || e[i] == 0
    ensures |Empties(p, e, n)| + Count(p[..n]) + Count(e[..n]) == n
  {
    if n > 0 {
      EmptiesAndCounts(p, e, n - 1);
      assert p[..n][..n - 1] == p[..n - 1];
      assert e[..n][..n - 1] == e[..n - 1];
    }
  }

  /** A legal move removes exactly its own cell from the empty cells: the
      search terminates because this number goes down by one. */
  lemma NextShrinks(s: State, a: int)
    requires s.WellFormed() && s.IsEmpty(a)
    ensures 0 <= a < CellCount && s.Next(a).WellFormed()
    ensures |s.Next(a).Legal()| == |s.Legal()| - 1
  {
    EmptiesAfterMark(s.pieces, s.enemyPieces, a, CellCount);
  }

  /** The empty cells after a move are the old ones less the cell just marked;
      a position without doubly marked cells stays so. */
  lemma NextEmptyCells(s: State, a: int)
    requires s.WellFormed() && s.IsEmpty(a)
    ensures forall b :: s.Next(a).IsEmpty(b) <==> s.IsEmpty(b) && b != a
    ensures s.Disjoint() ==> s.Next(a).Disjoint()
  {
  }

  /** On a position without doubly marked cells, every cell is empty or counted once. */
  lemma LegalPlusCounts(s: State)
    requires s.WellFormed() && s.Disjoint()
    ensures |s.Legal()| + Count(s.pieces) + Count(s.enemyPieces) == CellCount
  {
    EmptiesAndCounts(s.pieces, s.enemyPieces, CellCount);
    assert s.pieces[..CellCount] == s.pieces;
    assert s.enemyPieces[..CellCount] == s.enemyPieces;
  }

  /** legal_actions lists exactly the empty cells, in increasing order. */
  lemma LegalExactlyEmpty(s: State)
    requires s.WellFormed()
    ensures forall a :: a in s.Legal() <==> s.IsEmpty(a)
    ensures forall i, j :: 0 <= i < j < |s.Legal()| ==> s.Legal()[i] < s.Legal()[j]
  {
    EmptiesComplete(s.pieces, s.enemyPieces, |s.pieces|);
    forall a | a in s.Legal() ensures s.IsEmpty(a) {
      var i :| 0 <= i < |s.Legal()| && s.Legal()[i] == a;
    }
  }

  /** A full board is exactly a board without legal moves. */
  lemma DrawnIffNoLegal(s: State)
    requires s.WellFormed()
    ensures s.Disjoint() ==> (s.Drawn() <==> s.Legal() == [])
  {
    if s.Disjoint() {
      LegalPlusCounts(s);
    }
  }

  lemma InitialBalanced()
    ensures Initial().Balanced() && Initial().FirstPlayer() && !Initial().Done()
    ensures Initial().Legal() == [0, 1, 2, 3, 4, 5, 6, 7, 8]
  {
    var s := Initial();
    assert forall k :: 0 <= k <= CellCount ==> Count(s.pieces[..k]) == 0 by {
      forall k | 0 <= k <= CellCount ensures Count(s.pieces[..k]) == 0 {
        CountZeros(s.pieces[..k]);
      }
    }
    assert s.pieces[..CellCount] == s.pieces;
    assert !s.Lost();
  }

  lemma {:induction false} CountZeros(c: seq<Bit>)
    requires forall i :: 0 <= i < |c| ==> c[i] == 0
    ensures Count(c) == 0
  {
    if c != [] {
      CountZeros(c[..|c| - 1]);
    }
  }

  /** A legal move keeps the game invariant and hands the turn to the other side. */
  lemma NextBalanced(s: State, a: int)
    requires s.Balanced() && s.IsEmpty(a)
    ensures s.Next(a).Balanced()
    ensures s.Next(a).FirstPlayer() <==> !s.FirstPlayer()
    ensures Count(s.Next(a).pieces) + Count(s.Next(a).enemyPieces)
         == Count(s.pieces) + Count(s.enemyPieces) + 1
  {
    NextShrinks(s, a);
    NextEmptyCells(s, a);
    CountMark(s.pieces, a);
  }

  /** An unfinished game always has a move. */
  lemma NotDoneHasMove(s: State)
    requires s.Balanced() && !s.Done()
    ensures |s.Legal()| > 0
  {
    DrawnIffNoLegal(s);
  }

  /** A game from the empty board: each state follows the previous one by a
      move of the side to move onto an empty cell, and only unfinished
      positions are moved from. */
  ghost predicate IsGame(states: seq<State>, moves: seq<int>) {
    && |states| == |moves| + 1
    && states[0] == Initial()
    && forall i :: 0 <= i < |moves| ==> GameStep(states, moves, i)
  }

  /** Ply i of a game: an unfinished position and a move onto an empty cell. */
  ghost predicate GameStep(states: seq<State>, moves: seq<int>, i: int)
    requires |states| == |moves| + 1 && 0 <= i < |moves|
  {
    && states[i].WellFormed() && !states[i].Done() && states[i].IsEmpty(moves[i])
    && states[i + 1] == states[i].Next(moves[i])
  }

  /** A game extends by a move of the side to move onto an empty cell of its
      unfinished last position. */
  lemma IsGameStep(states: seq<State>, moves: seq<int>, a: int)
    requires IsGame(states, moves)
    requires states[|moves|].WellFormed() && !states[|moves|].Done() && states[|moves|].IsEmpty(a)
    ensures IsGame(states + [states[|moves|].Next(a)], moves + [a])
  {
    var states' := states + [states[|moves|].Next(a)];
    var moves' := moves + [a];
    forall i | 0 <= i < |moves'|
      ensures GameStep(states', moves', i)
    {
      if i < |moves| {
        assert GameStep(states, moves, i);
        assert states'[i] == states[i] && states'[i + 1] == states[i + 1] && moves'[i] == moves[i];
      }
    }
  }

  lemma InitialCounts()
    ensures Initial().Balanced() && Initial().FirstPlayer()
    ensures Count(Initial().pieces) + Count(Initial().enemyPieces) == 0
  {
    InitialBalanced();
    CountZeros(Initial().pieces);
    CountZeros(Initial().enemyPieces);
  }

  /** Along a game the invariant holds, the first player moves exactly on even
      plies, and ply i has i marks on the board. */
  lemma {:induction false} GameAlternates(states: seq<State>, moves: seq<int>, i: int)
    requires IsGame(states, moves) && 0 <= i < |states|
    ensures states[i].Balanced()
    ensures states[i].FirstPlayer() <==> i % 2 == 0
    ensures Count(states[i].pieces) + Count(states[i].enemyPieces) == i
  {
    if i == 0 {
      InitialCounts();
    } else {
      GameAlternates(states, moves, i - 1);
      assert GameStep(states, moves, i - 1);
      NextBalanced(states[i - 1], moves[i - 1]);
    }
  }

  /** A game has at most nine moves. */
  lemma GameLength(states: seq<State>, moves: seq<int>)
    requires IsGame(states, moves)
    ensures |moves| <= CellCount
  {
    GameAlternates(states, moves, |moves|);
    LegalPlusCounts(states[|moves|]);
  }

  lemma LineFromThree(e: seq<Bit>, x: int, y: int, dx: int, dy: int)
    requires |e| == CellCount
    ensures LineFrom(e, x, y, dx, dy, 3) <==>
      (0 <= x <= 2 && 0 <= y <= 2 && e[x + 3 * y] != 0) &&
      (0 <= x + dx <= 2 && 0 <= y + dy <= 2 && e[x + dx + 3 * (y + dy)] != 0) &&
      (0 <= x + 2 * dx <= 2 && 0 <= y + 2 * dy <= 2 && e[x + 2 * dx + 3 * (y + 2 * dy)] != 0)
  {
    assert LineFrom(e, x, y, dx, dy, 3) ==
      (0 <= x <= 2 && 0 <= y <= 2 && e[x + 3 * y] != 0 && LineFrom(e, x + dx, y + dy, dx, dy, 2));
    assert LineFrom(e, x + dx, y + dy, dx, dy, 2) ==
      (0 <= x + dx <= 2 && 0 <= y + dy <= 2 && e[x + dx + 3 * (y + dy)] != 0 &&
       LineFrom(e, x + 2 * dx, y + 2 * dy, dx, dy, 1));
  }

  // ---------------------------------------------------------------------------
  // The rules as the source computes them, by loops

  /** piece_count: count the marks with a running counter. */
  method PieceCount(cells: seq<Bit>) returns (count: nat)
    ensures count == Count(cells)
  {
    count := 0;
    var i := 0;
    while i < |cells|
      invariant 0 <= i <= |cells|
      invariant count == Count(cells[..i])
    {
      assert cells[..i + 1][..i] == cells[..i];
      if cells[i] == 1 {
        count := count + 1;
      }
      i := i + 1;
    }
    assert cells[..|cells|] == cells;
  }

  /** is_comp: walk three cells from (x, y) in direction (dx, dy); fail on
      leaving the board or on a cell the last mover does not hold. */
  method IsComp(s: State, x0: int, y0: int, dx: int, dy: int) returns (b: bool)
    requires s.WellFormed()
    ensures b == LineFrom(s.enemyPieces, x0, y0, dx, dy, 3)
  {
    var x, y := x0, y0;
    var k := 0;
    while k < 3
      invariant 0 <= k <= 3
      invariant LineFrom(s.enemyPieces, x0, y0, dx, dy, 3) == LineFrom(s.enemyPieces, x, y, dx, dy, 3 - k)
    {
      if y < 0 || 2 < y || x < 0 || 2 < x || s.enemyPieces[x + y * 3] == 0 {
        return false;
      }
      x, y := x + dx, y + dy;
      k := k + 1;
    }
    return true;
  }

  /** is_lose: both diagonals first, then each row and column. */
  method IsLose(s: State) returns (b: bool)
    requires s.WellFormed()
    ensures b == s.Lost()
  {
    var e := s.enemyPieces;
    var d1 := IsComp(s, 0, 0, 1, 1);
    LineFromThree(e, 0, 0, 1, 1);
    var d2 := IsComp(s, 0, 2, 1, -1);
    LineFromThree(e, 0, 2, 1, -1);
    if d1 || d2 {
      return true;
    }
    var i := 0;
    while i < 3
      invariant 0 <= i <= 3
      invariant !DiagonalOwned(e)
      invariant forall j :: 0 <= j < i ==> !RowOwned(e, j)
      invariant forall j :: 0 <= j < i ==> !ColOwned(e, j)
    {
      var row := IsComp(s, 0, i, 1, 0);
      LineFromThree(e, 0, i, 1, 0);
      var col := IsComp(s, i, 0, 0, 1);
      LineFromThree(e, i, 0, 0, 1);
      if row || col {
        assert RowOwned(e, i) || ColOwned(e, i);
        return true;
      }
      i := i + 1;
    }
    return false;
  }

  method IsDraw(s: State) returns (b: bool)
    requires s.WellFormed()
    ensures b == s.Drawn()
  {
    var own := PieceCount(s.pieces);
    var other := PieceCount(s.enemyPieces);
    b := own + other == CellCount;
  }

  method IsDone(s: State) returns (b: bool)
    requires s.WellFormed()
    ensures b == s.Done()
  {
    b := IsLose(s);
    if !b {
      b := IsDraw(s);
    }
  }

  /** legal_actions: scan the nine cells and append the empty ones. */
  method LegalActions(s: State) returns (acts: seq<int>)
    requires s.WellFormed()
    ensures acts == s.Legal()
  {
    acts := [];
    var i := 0;
    while i < CellCount
      invariant 0 <= i <= CellCount
      invariant acts == Empties(s.pieces, s.enemyPieces, i)
    {
      if s.pieces[i] == 0 && s.enemyPieces[i] == 0 {
        acts := acts + [i];
      }
      i := i + 1;
    }
  }

  // ---------------------------------------------------------------------------
  // Exact search

  /** Every move in `acts` is on an empty cell of s. */
  ghost predicate AllEmpty(s: State, acts: seq<int>) {
    forall j :: 0 <= j < |acts| ==> s.IsEmpty(acts[j])
  }

  lemma LegalAllEmpty(s: State)
    requires s.WellFormed()
    ensures AllEmpty(s, s.Legal())
  {
  }

  /** The game value for the side to move, as mini_max defines it: -1 on a
      loss (looked at before the draw), 0 on a draw, otherwise the best over
      the legal moves of the negated value of the next position. */
  function Value(s: State): (r: int)
    requires s.WellFormed()
    decreases |s.Legal()|, 1, 0
    ensures NegInf <= r <= PosInf
  {
    LegalAllEmpty(s);
    if s.Lost() then -1
    else if s.Drawn() then 0
    else
      var xs := ScoreList(s, s.Legal());
      BestScoreAtMost(xs, PosInf);
      BestScore(xs)
  }

  /** The negated values of the positions after each move in `acts`. */
  function ScoreList(s: State, acts: seq<int>): (xs: seq<int>)
    requires s.WellFormed()
    requires AllEmpty(s, acts)
    decreases |s.Legal()|, 0, |acts|
    ensures |xs| == |acts|
    ensures forall j :: 0 <= j < |xs| ==> NegInf <= xs[j] <= PosInf
  {
    if acts == [] then []
    else
      assert AllEmpty(s, acts[..|acts| - 1]);
      var a := acts[|acts| - 1];
      NextShrinks(s, a);
      ScoreList(s, acts[..|acts| - 1]) + [-Value(s.Next(a))]
  }

  lemma {:induction false} ScoreListAt(s: State, acts: seq<int>, j: int)
    requires s.WellFormed()
    requires AllEmpty(s, acts)
    requires 0 <= j < |acts|
    ensures 0 <= acts[j] < CellCount
    ensures ScoreList(s, acts)[j] == -Value(s.Next(acts[j]))
  {
    NextShrinks(s, acts[j]);
    if j < |acts| - 1 {
      ScoreListAt(s, acts[..|acts| - 1], j);
    }
  }

  /** On a position of a game (no doubly marked cell) the value is a real
      game outcome: -1, 0 or 1; the sentinels never surface. */
  lemma {:induction false} ValueOnDisjoint(s: State)
    requires s.WellFormed() && s.Disjoint()
    decreases |s.Legal()|
    ensures -1 <= Value(s) <= 1
  {
    if !s.Lost() && !s.Drawn() {
      DrawnIffNoLegal(s);
      LegalAllEmpty(s);
      var acts := s.Legal();
      var xs := ScoreList(s, acts);
      forall j | 0 <= j < |xs| ensures -1 <= xs[j] <= 1 {
        ScoreListAt(s, acts, j);
        NextShrinks(s, acts[j]);
        NextEmptyCells(s, acts[j]);
        ValueOnDisjoint(s.Next(acts[j]));
      }
      BestScoreWithin(xs, -1, 1);
    }
  }

  lemma {:induction false} ScoreListPrefix(s: State, acts: seq<int>, i: int)
    requires s.WellFormed()
    requires AllEmpty(s, acts)
    requires 0 <= i <= |acts|
    ensures ScoreList(s, acts[..i]) == ScoreList(s, acts)[..i]
    decreases |acts|
  {
    if i < |acts| {
      var m := |acts| - 1;
      assert acts[..m][..i] == acts[..i];
      ScoreListPrefix(s, acts[..m], i);
    } else {
      assert acts[..i] == acts;
    }
  }

  lemma BestScoreStep(xs: seq<int>, i: int)
    requires 0 <= i < |xs|
    ensures BestScore(xs[..i + 1]) == Max(BestScore(xs[..i]), xs[i])
  {
    assert xs[..i + 1][..i] == xs[..i];
  }

  lemma ArgBestStep(xs: seq<int>, i: int)
    requires 0 <= i < |xs|
    ensures ArgBest(xs[..i + 1]) ==
      (if xs[i] > (if ArgBest(xs[..i]) < 0 then NegInf else xs[ArgBest(xs[..i])])
       then i else ArgBest(xs[..i]))
  {
    assert xs[..i + 1][..i] == xs[..i];
  }

  /** What a window search returns for a position of value v searched in
      (alpha, beta): v itself inside the window, a bound outside it. */
  ghost predicate FailSoft(v: int, alpha: int, beta: int, r: int) {
    && (alpha < v < beta ==> r == v)
    && (v <= alpha ==> r <= alpha)
    && (v >= beta ==> r >= beta)
  }

  /** Searched with the full window (-inf, +inf), a position gets its exact value. */
  lemma FullWindowExact(v: int, r: int)
    requires NegInf <= v <= PosInf && NegInf <= r <= PosInf
    requires FailSoft(v, NegInf, PosInf, r)
    ensures r == v
  {
  }

  /** The running best move and score of a *_action loop after i moves. */
  ghost predicate Tracks(xs: seq<int>, acts: seq<int>, i: int, best: int, bestScore: int)
    requires 0 <= i <= |xs| == |acts|
  {
    var k := ArgBest(xs[..i]);
    if k < 0 then best == 0 && bestScore == NegInf else best == acts[k] && bestScore == xs[k]
  }

  lemma TracksStep(xs: seq<int>, acts: seq<int>, i: int, best: int, bestScore: int)
    requires 0 <= i < |xs| == |acts| && Tracks(xs, acts, i, best, bestScore)
    ensures xs[i] > bestScore ==> Tracks(xs, acts, i + 1, acts[i], xs[i])
    ensures xs[i] <= bestScore ==> Tracks(xs, acts, i + 1, best, bestScore)
  {
    ArgBestStep(xs, i);
  }

  /** One round of the alpha-beta loop: a child searched in the window
      (a, beta) either cuts, which happens only when its true score reaches
      beta, or moves a to the running maximum. */
  lemma AlphaBetaStep(xs: seq<int>, i: int, alpha: int, a: int, beta: int, score: int)
    requires 0 <= i < |xs|
    requires a == Max(alpha, BestScore(xs[..i])) && a < beta
    requires FailSoft(-xs[i], -beta, -a, -score)
    ensures score >= beta ==> xs[i] >= beta
    ensures score < beta ==> (if score > a then score else a) == Max(alpha, BestScore(xs[..i + 1]))
  {
    BestScoreStep(xs, i);
  }

  /** On a position that is neither lost nor drawn, the value is the best
      entry of the score list over all legal moves. */
  lemma ValueUnfold(s: State)
    requires s.WellFormed() && !s.Lost() && !s.Drawn()
    ensures Value(s) == BestScore(ScoreList(s, s.Legal()))
  {
  }

  /** mini_max: the recursive search, its loop keeping the best score so far. */
  method MiniMax(s: State) returns (r: int)
    requires s.WellFormed()
    decreases |s.Legal()|
    ensures r == Value(s)
  {
    var lose := IsLose(s);
    if lose {
      return -1;
    }
    var draw := IsDraw(s);
    if draw {
      return 0;
    }
    var acts := LegalActions(s);
    LegalAllEmpty(s);
    ghost var xs := ScoreList(s, acts);
    var best := NegInf;
    var i := 0;
    while i < |acts|
      invariant 0 <= i <= |acts|
      invariant best == BestScore(xs[..i])
    {
      ScoreListAt(s, acts, i);
      BestScoreStep(xs, i);
      NextShrinks(s, acts[i]);
      var v := MiniMax(s.Next(acts[i]));
      var score := -v;
      if score > best {
        best := score;
      }
      i := i + 1;
    }
    assert xs[..|acts|] == xs;
    ValueUnfold(s);
    return best;
  }

  /** alpha_beta: the same search with a window; it returns the exact value
      inside the window and a bound on the correct side outside it. */
  method AlphaBeta(s: State, alpha: int, beta: int) returns (r: int)
    requires s.WellFormed()
    requires NegInf <= alpha < beta <= PosInf
    decreases |s.Legal()|
    ensures NegInf <= r <= PosInf
    ensures FailSoft(Value(s), alpha, beta, r)
  {
    var lose := IsLose(s);
    if lose {
      return -1;
    }
    var draw := IsDraw(s);
    if draw {
      return 0;
    }
    var acts := LegalActions(s);
    LegalAllEmpty(s);
    ghost var xs := ScoreList(s, acts);
    ValueUnfold(s);
    var a := alpha;
    var i := 0;
    while i < |acts|
      invariant 0 <= i <= |acts|
      invariant a == Max(alpha, BestScore(xs[..i]))
      invariant a < beta
    {
      ScoreListAt(s, acts, i);
      NextShrinks(s, acts[i]);
      var v := AlphaBeta(s.Next(acts[i]), -beta, -a);
      var score := -v;
      AlphaBetaStep(xs, i, alpha, a, beta, score);
      if score > a {
        a := score;
      }
      if score >= beta {
        assert xs[i] >= beta;
        return score;
      }
      i := i + 1;
    }
    assert xs[..|acts|] == xs;
    return a;
  }

  /** The move both *_action wrappers pick: the first legal move whose negated
      next value is largest, or 0 when no move scores above -inf. */
  function OptimalAction(s: State): int
    requires s.WellFormed()
  {
    var k := ArgBest(ScoreList(s, s.Legal()));
    if k < 0 then 0 else s.Legal()[k]
  }

  /** On a position of a game, the chosen move is legal, reaches the game
      value, and every earlier legal move scores strictly less. */
  lemma OptimalActionIsOptimal(s: State)
    requires s.Balanced() && !s.Done()
    ensures s.IsEmpty(OptimalAction(s))
    ensures -Value(s.Next(OptimalAction(s))) == Value(s)
    ensures forall j :: 0 <= j < |s.Legal()| && s.Legal()[j] == OptimalAction(s) ==>
      forall i :: 0 <= i < j ==> -Value(s.Next(s.Legal()[i])) < Value(s)
  {
    NotDoneHasMove(s);
    LegalAllEmpty(s);
    var acts := s.Legal();
    var xs := ScoreList(s, acts);
    ScoreListAt(s, acts, 0);
    NextShrinks(s, acts[0]);
    NextEmptyCells(s, acts[0]);
    ValueOnDisjoint(s.Next(acts[0]));
    var k := ArgBest(xs);
    assert k >= 0 && acts[k] == OptimalAction(s);
    ScoreListAt(s, acts, k);
    LegalExactlyEmpty(s);
    forall j | 0 <= j < |acts| && acts[j] == OptimalAction(s)
      ensures forall i :: 0 <= i < j ==> -Value(s.Next(acts[i])) < Value(s)
    {
      assert j == k;
      forall i | 0 <= i < j ensures -Value(s.Next(acts[i])) < Value(s) {
        ScoreListAt(s, acts, i);
      }
    }
  }

  /** mini_max_action: keep the first move with a strictly better score. */
  method MiniMaxAction(s: State) returns (best: int)
    requires s.WellFormed()
    ensures best == OptimalAction(s)
  {
    var acts := LegalActions(s);
    LegalAllEmpty(s);
    ghost var xs := ScoreList(s, acts);
    best := 0;
    var bestScore := NegInf;
    var i := 0;
    while i < |acts|
      invariant 0 <= i <= |acts|
      invariant Tracks(xs, acts, i, best, bestScore)
    {
      ScoreListAt(s, acts, i);
      NextShrinks(s, acts[i]);
      var v := MiniMax(s.Next(acts[i]));
      var score := -v;
      TracksStep(xs, acts, i, best, bestScore);
      if score > bestScore {
        best := acts[i];
        bestScore := score;
      }
      i := i + 1;
    }
    assert xs[..|acts|] == xs;
    assert Tracks(xs, acts, |acts|, best, bestScore);
  }

  /** alpha_beta_action: the same wrapper over alpha_beta with the full window. */
  method AlphaBetaAction(s: State) returns (best: int)
    requires s.WellFormed()
    ensures best == OptimalAction(s)
  {
    var acts := LegalActions(s);
    LegalAllEmpty(s);
    ghost var xs := ScoreList(s, acts);
    best := 0;
    var bestScore := NegInf;
    var i := 0;
    while i < |acts|
      invariant 0 <= i <= |acts|
      invariant Tracks(xs, acts, i, best, bestScore)
    {
      ScoreListAt(s, acts, i);
      NextShrinks(s, acts[i]);
      var v := AlphaBeta(s.Next(acts[i]), NegInf, PosInf);
      FullWindowExact(Value(s.Next(acts[i])), v);
      var score := -v;
      TracksStep(xs, acts, i, best, bestScore);
      if score > bestScore {
        best := acts[i];
        bestScore := score;
      }
      i := i + 1;
    }
    assert xs[..|acts|] == xs;
    assert Tracks(xs, acts, |acts|, best, bestScore);
  }
}
