/** Integer scores of the exact search and the "first strict maximum" selection
    that every search wrapper and the visit-count one-hot use. */
module Scores {

  /** The search code starts its running best at minus infinity; the game values
      are -1, 0 and 1, so -2 and 2 stand for -inf and +inf exactly. */
  const NegInf: int := -2
  const PosInf: int := 2

  function Max(a: int, b: int): int { if a < b then b else a }

  /** The sum of a list of reals, added up from the left. */
  function Sum(xs: seq<real>): real {
    if xs == [] then 0.0 else Sum(xs[..|xs| - 1]) + xs[|xs| - 1]
  }

  /** The running maximum of a left-to-right scan that starts at NegInf:
      `best = -inf; for x in xs: if x > best: best = x`. */
  function BestScore(xs: seq<int>): (r: int)
    ensures forall j :: 0 <= j < |xs| ==> xs[j] <= r
    ensures NegInf <= r
  {
    if xs == [] then NegInf else Max(BestScore(xs[..|xs| - 1]), xs[|xs| - 1])
  }

  lemma {:induction false} BestScoreAtMost(xs: seq<int>, hi: int)
    requires NegInf <= hi
    requires forall j :: 0 <= j < |xs| ==> xs[j] <= hi
    ensures BestScore(xs) <= hi
  {
    if xs != [] {
      BestScoreAtMost(xs[..|xs| - 1], hi);
    }
  }

  /** The best of a non-empty list of scores in [lo, hi] above NegInf lies in [lo, hi]. */
  lemma {:induction false} BestScoreWithin(xs: seq<int>, lo: int, hi: int)
    requires |xs| > 0 && NegInf < lo
    requires forall j :: 0 <= j < |xs| ==> lo <= xs[j] <= hi
    ensures lo <= BestScore(xs) <= hi
  {
    if |xs| > 1 {
      BestScoreWithin(xs[..|xs| - 1], lo, hi);
    }
  }

  /** The index a scan with a strict `>` keeps: the first index holding the
      maximum, or -1 when no element rises above NegInf. */
  function ArgBest(xs: seq<int>): (k: int)
    ensures -1 <= k < |xs|
    ensures k == -1 ==> BestScore(xs) == NegInf && forall j :: 0 <= j < |xs| ==> xs[j] <= NegInf
    ensures k >= 0 ==> xs[k] == BestScore(xs) > NegInf
    ensures k >= 0 ==> forall j :: 0 <= j < k ==> xs[j] < xs[k]
  {
    if xs == [] then -1
    else
      var k := ArgBest(xs[..|xs| - 1]);
      var best := if k < 0 then NegInf else xs[k];
      if xs[|xs| - 1] > best then |xs| - 1 else k
  }

  /** A sequence whose elements all exceed NegInf has a first maximum. */
  lemma {:induction false} ArgBestAboveNegInf(xs: seq<int>)
    requires |xs| > 0
    requires forall j :: 0 <= j < |xs| ==> xs[j] > NegInf
    ensures 0 <= ArgBest(xs) < |xs|
    ensures forall j :: 0 <= j < |xs| ==> xs[j] <= xs[ArgBest(xs)]
  {
    assert xs[0] > NegInf;
  }
}
